/** `StringPlaceholderUtil`: a table of placeholder values and the
    one-pass expansion of `{key}` placeholders in a string. */
module Placeholders {
  import opened Strings

  /** What a placeholder `{key}` becomes: the key's value when the key is
      known, the placeholder itself, braces included, otherwise. */
  function Substitute(key: string, table: map<string, string>): string {
    if key in table then table[key] else "{" + key + "}"
  }

  /** Ordinal `IndexOf` of a one-character string: the first position at
      or after `from` holding `c`, or -1. */
  function Find(s: string, c: char, from: nat): (r: int)
    requires from <= |s|
    ensures r == -1 || from <= r < |s|
    ensures r >= 0 ==> s[r] == c
    decreases |s| - from
  {
    if from == |s| then -1
    else if s[from] == c then from
    else Find(s, c, from + 1)
  }

  /** `Find` stops at the first `c`, and finds none only when there is
      none. */
  lemma {:induction false} FindFirst(s: string, c: char, from: nat)
    requires from <= |s|
    ensures forall j :: from <= j < |s| && (Find(s, c, from) == -1 || j < Find(s, c, from)) ==> s[j] != c
    decreases |s| - from
  {
    if from < |s| && s[from] != c {
      FindFirst(s, c, from + 1);
    }
  }

  /** `Find` is the ordinal `IndexOf` of the one-character string. */
  lemma {:induction false} FindIsIndexOf(s: string, c: char, from: nat)
    requires from <= |s|
    ensures Find(s, c, from) == IndexOf(s, [c], from)
    decreases |s| - from
  {
    if from < |s| {
      assert OccursAt(s, [c], from) <==> s[from] == c by {
        assert s[from..from + 1] == [s[from]];
      }
      if s[from] != c {
        FindIsIndexOf(s, c, from + 1);
      }
    }
  }

  /** A run of plain text, or a placeholder with its key. */
  datatype Piece = Text(text: string) | Hole(key: string)

  /** How `GetString` cuts a string: the text up to the first `{`, then
      the placeholder that runs to the first `}` after it, then the rest
      cut in the same way. Once no `{` follows, or a `{` has no `}` after
      it, the remaining text is one piece of plain text. */
  function Pieces(s: string): seq<Piece>
    decreases |s|
  {
    var l := Find(s, '{', 0);
    if l < 0 then [Text(s)]
    else
      var r := Find(s, '}', l);
      if r < 0 then [Text(s)]
      else [Text(s[..l]), Hole(s[l + 1..r])] + Pieces(s[r + 1..])
  }

  /** The pieces put back together, with each placeholder substituted. */
  function Fill(ps: seq<Piece>, table: map<string, string>): string {
    if ps == [] then []
    else
      (match ps[0]
       case Text(t) => t
       case Hole(k) => Substitute(k, table)) + Fill(ps[1..], table)
  }

  /** What `GetString` builds for `s` before its special cases. */
  function Expand(s: string, table: map<string, string>): string {
    Fill(Pieces(s), table)
  }

  /** `GetString`'s result: "" for an empty string, and the input itself
      when the expansion is empty. */
  function Render(s: string, table: map<string, string>): string {
    if s == [] then []
    else if Expand(s, table) == [] then s
    else Expand(s, table)
  }

  /** Searching from `i + j` is searching the rest from `j`. */
  lemma {:induction false} FindDrop(s: string, c: char, i: nat, j: nat)
    requires i + j <= |s|
    ensures Find(s, c, i + j) == if Find(s[i..], c, j) < 0 then -1 else i + Find(s[i..], c, j)
    decreases |s| - i - j
  {
    if i + j < |s| {
      assert s[i..][j] == s[i + j];
      if s[i + j] != c {
        FindDrop(s, c, i, j + 1);
      }
    }
  }

  /** The rest of the string from `i` when a placeholder is found there. */
  lemma PiecesCut(s: string, i: nat, l: int, r: int)
    requires i <= |s| && l == Find(s, '{', i) && l >= 0 && r == Find(s, '}', l) && r >= 0
    ensures Pieces(s[i..]) == [Text(s[i..l]), Hole(s[l + 1..r])] + Pieces(s[r + 1..])
  {
    var t := s[i..];
    FindDrop(s, '{', i, 0);
    FindDrop(s, '}', i, l - i);
    assert Find(t, '{', 0) == l - i && Find(t, '}', l - i) == r - i;
    assert Pieces(t) == [Text(t[..l - i]), Hole(t[l - i + 1..r - i])] + Pieces(t[r - i + 1..]);
    assert t[..l - i] == s[i..l];
    assert t[l - i + 1..r - i] == s[l + 1..r];
    assert t[r - i + 1..] == s[r + 1..];
  }

  /** The rest of the string from `i` when no placeholder is found there. */
  lemma PiecesText(s: string, i: nat)
    requires i <= |s|
    requires Find(s, '{', i) < 0 || Find(s, '}', Find(s, '{', i)) < 0
    ensures Pieces(s[i..]) == [Text(s[i..])]
  {
    FindDrop(s, '{', i, 0);
    var l := Find(s, '{', i);
    if l >= 0 {
      FindDrop(s, '}', i, l - i);
    }
  }

  /** The rest of the string, when no further placeholder is found. */
  lemma PiecesEnd(s: string, i: nat, table: map<string, string>)
    requires i <= |s|
    requires Find(s, '{', i) < 0 || Find(s, '}', Find(s, '{', i)) < 0
    ensures Expand(s[i..], table) == s[i..]
  {
    PiecesText(s, i);
    FillText(s[i..], table);
  }

  /** Plain text alone is copied. */
  lemma FillText(t: string, table: map<string, string>)
    ensures Fill([Text(t)], table) == t
  {
    assert Fill([Text(t)], table) == t + Fill([], table);
  }

  /** What a placeholder found contributes in front of the rest. */
  lemma FillCut(s: string, i: nat, l: int, r: int, table: map<string, string>)
    requires i <= |s| && l == Find(s, '{', i) && l >= 0 && r == Find(s, '}', l) && r >= 0
    ensures Expand(s[i..], table) == s[i..l] + Substitute(s[l + 1..r], table) + Expand(s[r + 1..], table)
  {
    PiecesCut(s, i, l, r);
    FillStep(s[i..l], s[l + 1..r], Pieces(s[r + 1..]), table);
  }

  /** The text and the placeholder in front of the rest. */
  lemma FillStep(t: string, k: string, rest: seq<Piece>, table: map<string, string>)
    ensures Fill([Text(t), Hole(k)] + rest, table) == t + Substitute(k, table) + Fill(rest, table)
  {
    var ps := [Text(t), Hole(k)] + rest;
    assert ps[1..] == [Hole(k)] + rest;
    assert ps[1..][1..] == rest;
  }

  /** `c` first occurs at `at` from position `from` on. */
  lemma {:induction false} FirstAt(s: string, c: char, from: nat, at: nat)
    requires from <= at < |s| && s[at] == c
    requires forall j :: from <= j < at ==> s[j] != c
    ensures Find(s, c, from) == at
    decreases at - from
  {
    if from < at {
      FirstAt(s, c, from + 1, at);
    }
  }

  /** `c` does not occur from position `from` on. */
  lemma {:induction false} NoneFrom(s: string, c: char, from: nat)
    requires from <= |s|
    requires forall j :: from <= j < |s| ==> s[j] != c
    ensures Find(s, c, from) == -1
    decreases |s| - from
  {
    if from < |s| {
      NoneFrom(s, c, from + 1);
    }
  }

  /** A string without `{` expands to itself. */
  lemma NoBraceUnchanged(s: string, table: map<string, string>)
    requires '{' !in s
    ensures Render(s, table) == s
  {
    NoneFrom(s, '{', 0);
    assert Fill([Text(s)], table) == s + Fill([], table);
  }

  /** A known key is replaced by its value, which is copied as it is and
      not scanned again; the scan goes on after the placeholder. */
  lemma KnownKeyReplaced(a: string, key: string, b: string, table: map<string, string>)
    requires '{' !in a && '}' !in key && key in table
    ensures Expand(a + "{" + key + "}" + b, table) == a + table[key] + Expand(b, table)
  {
    Placeholder(a, key, b, table);
  }

  /** An unknown key's placeholder is kept verbatim, braces included. */
  lemma UnknownKeyKept(a: string, key: string, b: string, table: map<string, string>)
    requires '{' !in a && '}' !in key && key !in table
    ensures Expand(a + "{" + key + "}" + b, table) == a + "{" + key + "}" + Expand(b, table)
  {
    Placeholder(a, key, b, table);
  }

  /** The key of the first placeholder runs from the first `{` to the
      first `}` after it, so it may itself hold a `{`. */
  lemma Placeholder(a: string, key: string, b: string, table: map<string, string>)
    requires '{' !in a && '}' !in key
    ensures Expand(a + "{" + key + "}" + b, table) == a + Substitute(key, table) + Expand(b, table)
  {
    var s := a + "{" + key + "}" + b;
    FirstAt(s, '{', 0, |a|);
    FirstAt(s, '}', |a|, |a| + 1 + |key|);
    assert s[..|a|] == a;
    assert s[|a| + 1..|a| + 1 + |key|] == key;
    assert s[|a| + 1 + |key| + 1..] == b;
    FillStep(a, key, Pieces(b), table);
  }

  /** A `{` with no `}` after it ends the scan: the rest is copied. */
  lemma UnclosedCopied(a: string, b: string, table: map<string, string>)
    requires '{' !in a && '}' !in b
    ensures Expand(a + "{" + b, table) == a + "{" + b
  {
    var s := a + "{" + b;
    FirstAt(s, '{', 0, |a|);
    NoneFrom(s, '}', |a|);
    assert Fill([Text(s)], table) == s + Fill([], table);
  }

  /** A placeholder is its key between braces. */
  lemma Braced(s: string, l: nat, r: nat)
    requires l < r < |s| && s[l] == '{' && s[r] == '}'
    ensures s[l..r + 1] == "{" + s[l + 1..r] + "}"
  {
  }

  /** Appending piece by piece is appending the pieces' concatenation. */
  lemma Regroup(a: string, b: string, c: string, d: string)
    ensures a + b + c + d == a + (b + c + d)
  {
  }

  /** With no key known, every placeholder is kept and the expansion is
      the input. */
  lemma {:induction false} NoKeysIdentity(s: string)
    ensures Expand(s, map[]) == s
    decreases |s|
  {
    var l := Find(s, '{', 0);
    assert s[0..] == s;
    if l < 0 || Find(s, '}', l) < 0 {
      PiecesEnd(s, 0, map[]);
    } else {
      var r := Find(s, '}', l);
      FillCut(s, 0, l, r, map[]);
      NoKeysIdentity(s[r + 1..]);
      Braced(s, l, r);
      assert s == s[0..l] + s[l..r + 1] + s[r + 1..];
    }
  }

  /** The static placeholder table. A `null` table behaves as an empty
      one in every member, so the model starts from the empty map. */
  class StringPlaceholderUtil {
    var cache: map<string, string>

    constructor()
      ensures cache == map[]
    {
      cache := map[];
    }

    /** `Add`: sets or overwrites the key's value. */
    method Add(key: string, value: string)
      modifies this
      ensures cache == old(cache)[key := value]
    {
      cache := cache[key := value];
    }

    /** `Remove`: drops the key, if present. */
    method Remove(key: string)
      modifies this
      ensures cache == old(cache) - {key}
    {
      cache := cache - {key};
    }

    /** `Get`: the key's value, or "" for an absent key. */
    method Get(key: string) returns (r: string)
      ensures key in cache ==> r == cache[key]
      ensures key !in cache ==> r == ""
    {
      if key in cache {
        return cache[key];
      }
      return "";
    }

    /** `Clear`: drops every key. */
    method Clear()
      modifies this
      ensures cache == map[]
    {
      cache := map[];
    }

    /** `GetString`: one left-to-right pass appending text and
      substitutions to a buffer. */
    method GetString(s: string) returns (r: string)
      ensures r == Render(s, cache)
    {
      if |s| == 0 {
        return "";
      }
      var table := cache;
      ghost var goal := Expand(s, table);
      var sb := "";
      var index := 0;
      assert s[index..] == s;
      while true
        invariant 0 <= index <= |s|
        invariant sb + Expand(s[index..], table) == goal
        decreases |s| - index
      {
        var left := Find(s, '{', index);
        if left < 0 {
          PiecesEnd(s, index, table);
          break;
        }
        var right := Find(s, '}', left);
        if right < 0 {
          PiecesEnd(s, index, table);
          break;
        }
        FillCut(s, index, left, right, table);
        ghost var sb0 := sb;
        sb := sb + s[index..left];
        var key := s[left + 1..right];
        var piece;
        if key in table {
          piece := table[key];
        } else {
          Braced(s, left, right);
          piece := s[left..right + 1];
        }
        assert piece == Substitute(key, table);
        sb := sb + piece;
        Regroup(sb0, s[index..left], piece, Expand(s[right + 1..], table));
        index := right + 1;
      }
      PiecesEnd(s, index, table);
      if index < |s| {
        sb := sb + s[index..];
      }
      r := if |sb| == 0 then s else sb;
    }
  }
}
