/** The .NET `System.IO.Path` members the code uses. `sep` is the platform's
    `Path.DirectorySeparatorChar`; `/` is always accepted as a separator too
    (it is `AltDirectorySeparatorChar`). */
module Paths {
  import opened Strings

  predicate IsSeparator(c: char, sep: char) {
    c == '/' || c == sep
  }

  /** The position of the last directory separator, or -1. */
  function LastSeparator(p: string, sep: char): (r: int)
    ensures -1 <= r < |p|
    ensures r >= 0 ==> IsSeparator(p[r], sep)
    ensures forall j :: r < j < |p| ==> !IsSeparator(p[j], sep)
  {
    if p == [] then -1
    else if IsSeparator(p[|p| - 1], sep) then |p| - 1
    else LastSeparator(p[..|p| - 1], sep)
  }

  /** `Path.GetFileName`: the part after the last directory separator. */
  function GetFileName(p: string, sep: char): (r: string)
    ensures forall i :: 0 <= i < |r| ==> !IsSeparator(r[i], sep)
    ensures EndsWith(p, r)
    ensures (forall i :: 0 <= i < |p| ==> !IsSeparator(p[i], sep)) ==> r == p
  {
    p[LastSeparator(p, sep) + 1..]
  }

  /** `Path.GetExtension`: from the last `.` of the file name on, or "" when
      the name has no `.` or ends with it. */
  function GetExtension(p: string, sep: char): (r: string)
    ensures r == [] || (r[0] == '.' && |r| >= 2)
    ensures forall i :: 0 < i < |r| ==> r[i] != '.' && !IsSeparator(r[i], sep)
    ensures EndsWith(GetFileName(p, sep), r)
  {
    var name := GetFileName(p, sep);
    var i := LastIndexOf(name, '.');
    if i < 0 || i == |name| - 1 then "" else ExtensionFrom(name, i, sep); name[i..]
  }

  /** The tail of a file name from its last `.` is a well-formed extension. */
  lemma ExtensionFrom(name: string, i: int, sep: char)
    requires 0 <= i < |name| - 1 && name[i] == '.'
    requires forall j :: i < j < |name| ==> name[j] != '.'
    requires forall j :: 0 <= j < |name| ==> !IsSeparator(name[j], sep)
    ensures name[i..][0] == '.' && |name[i..]| >= 2
    ensures forall k :: 0 < k < |name[i..]| ==> name[i..][k] != '.' && !IsSeparator(name[i..][k], sep)
    ensures EndsWith(name, name[i..])
  {
    forall k | 0 < k < |name[i..]| ensures name[i..][k] != '.' && !IsSeparator(name[i..][k], sep) {
      assert name[i..][k] == name[i + k];
    }
  }

  /** `Path.GetFileNameWithoutExtension`: the file name up to its last `.`. */
  function GetFileNameWithoutExtension(p: string, sep: char): (r: string)
    ensures StartsWith(GetFileName(p, sep), r)
    ensures forall i :: 0 <= i < |r| ==> !IsSeparator(r[i], sep)
  {
    var name := GetFileName(p, sep);
    var i := LastIndexOf(name, '.');
    if i < 0 then name else name[..i]
  }

  /** The name without extension followed by the extension is the file name,
      unless the file name ends with a `.` (which neither part keeps). */
  lemma FileNameSplitsAtExtension(p: string, sep: char)
    ensures var name := GetFileName(p, sep);
      name == [] || name[|name| - 1] != '.' ==>
      GetFileNameWithoutExtension(p, sep) + GetExtension(p, sep) == name
  {
    var name := GetFileName(p, sep);
    var i := LastIndexOf(name, '.');
    if i >= 0 && i != |name| - 1 {
      assert name == name[..i] + name[i..];
    }
  }

  /** The last separator of `p` lies before `k` when none follows it. */
  lemma LastSeparatorBefore(p: string, sep: char, k: int)
    requires 0 <= k <= |p|
    requires forall j :: k <= j < |p| ==> !IsSeparator(p[j], sep)
    ensures LastSeparator(p, sep) < k
  {
  }

  /** A path ending in a `.` followed by at least one character that is
      neither a `.` nor a separator has exactly that suffix as its extension. */
  lemma ExtensionOfSuffix(p: string, ext: string, sep: char)
    requires EndsWith(p, ext) && |ext| >= 2 && ext[0] == '.' && sep != '.'
    requires forall i :: 0 < i < |ext| ==> ext[i] != '.' && !IsSeparator(ext[i], sep)
    ensures GetExtension(p, sep) == ext
  {
    FileNameKeepsSuffix(p, ext, sep);
    var name := GetFileName(p, sep);
    NameExtension(name, ext, |name| - |ext|);
  }

  /** A suffix without separators stays a suffix of the file name. */
  lemma FileNameKeepsSuffix(p: string, ext: string, sep: char)
    requires EndsWith(p, ext)
    requires forall i :: 0 <= i < |ext| ==> !IsSeparator(ext[i], sep)
    ensures |GetFileName(p, sep)| >= |ext|
    ensures GetFileName(p, sep)[|GetFileName(p, sep)| - |ext|..] == ext
  {
    var start := |p| - |ext|;
    forall j | start <= j < |p| ensures !IsSeparator(p[j], sep) {
      assert p[start..][j - start] == p[j];
    }
    LastSeparatorBefore(p, sep, start);
  }

  /** A name whose tail from `i` is `ext` has `ext` as its extension. */
  lemma NameExtension(name: string, ext: string, i: int)
    requires 0 <= i <= |name| && name[i..] == ext && |ext| >= 2 && ext[0] == '.'
    requires forall j :: 0 < j < |ext| ==> ext[j] != '.'
    ensures LastIndexOf(name, '.') == i
    ensures name[LastIndexOf(name, '.')..] == ext
  {
    assert name[i] == '.' by {
      assert name[i..][0] == name[i];
    }
    forall j | i < j < |name| ensures name[j] != '.' {
      assert name[i..][j - i] == name[j];
    }
  }
}
