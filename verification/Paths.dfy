/** The parts of Python's `pathlib.PurePath` the converter code relies on:
    the final component (`name`), its `suffix` and `stem`, joining a file
    name onto a directory (`dir / name`), and lower-casing a suffix. */
module Paths {
  import opened Common

  /** Position of the last `c` in `s` (Python's `rfind`, with None for -1). */
  function LastIndexOf(s: string, c: char): (r: Option<nat>)
    ensures r.Some? ==> r.value < |s| && s[r.value] == c
    ensures r.Some? ==> forall k :: r.value < k < |s| ==> s[k] != c
    ensures r.None? ==> forall k :: 0 <= k < |s| ==> s[k] != c
  {
    LastBefore(s, c, |s|)
  }

  /** Position of the last `c` among the first `n` characters. */
  function LastBefore(s: string, c: char, n: nat): (r: Option<nat>)
    requires n <= |s|
    ensures r.Some? ==> r.value < n && s[r.value] == c
    ensures r.Some? ==> forall k :: r.value < k < n ==> s[k] != c
    ensures r.None? ==> forall k :: 0 <= k < n ==> s[k] != c
  {
    if n == 0 then None
    else if s[n - 1] == c then Some(n - 1)
    else LastBefore(s, c, n - 1)
  }

  /** `PurePath(path).name`: everything after the last '/'. */
  function Name(path: string): (r: string)
    ensures '/' !in r
    ensures |r| <= |path| && r == path[|path| - |r|..]
  {
    match LastIndexOf(path, '/')
    case None => path
    case Some(i) => path[i + 1..]
  }

  /** Where the suffix of a file name starts: at its last dot, provided that
      dot is neither the first nor the last character of the name. */
  function SuffixStart(name: string): (r: Option<nat>)
    ensures r.Some? ==> 0 < r.value < |name| - 1 && name[r.value] == '.'
    ensures r.Some? ==> forall k :: r.value < k < |name| ==> name[k] != '.'
  {
    match LastIndexOf(name, '.')
    case None => None
    case Some(i) => if 0 < i < |name| - 1 then Some(i) else None
  }

  /** `PurePath(name).suffix`. */
  function Suffix(name: string): string {
    match SuffixStart(name)
    case None => ""
    case Some(i) => name[i..]
  }

  /** `PurePath(name).stem`. */
  function Stem(name: string): string {
    match SuffixStart(name)
    case None => name
    case Some(i) => name[..i]
  }

  /** The stem and the suffix split the name: nothing is lost or duplicated,
      and a non-empty suffix is a dot followed by at least one character
      that is not a dot. */
  lemma StemSuffixSplit(name: string)
    ensures Stem(name) + Suffix(name) == name
    ensures Suffix(name) == "" || (|Suffix(name)| >= 2 && Suffix(name)[0] == '.' && '.' !in Suffix(name)[1..])
    ensures Stem(name) != "" || name == ""
  {
    match SuffixStart(name)
    case None =>
    case Some(i) =>
      assert name[..i] + name[i..] == name;
  }

  /** Appending "." and an extension without dots, to a non-empty stem,
      is undone by taking the stem and the suffix again. */
  lemma {:induction false} StemOfDotted(stem: string, ext: string)
    requires stem != "" && ext != "" && '.' !in ext
    ensures Stem(stem + "." + ext) == stem
    ensures Suffix(stem + "." + ext) == "." + ext
  {
    var name := stem + "." + ext;
    var d := |stem|;
    assert name[d] == '.';
    forall k | d < k < |name| ensures name[k] != '.' {
      assert name[k] == ext[k - d - 1];
    }
    LastAt(name, '.', d);
    assert name[..d] == stem;
    assert name[d..] == "." + ext;
  }

  /** Putting a prefix in front of a name with a suffix keeps the suffix. */
  lemma SuffixKeptUnderPrefix(p: string, n: string)
    requires Suffix(n) != ""
    ensures Suffix(p + n) == Suffix(n)
  {
    var i := SuffixStart(n).value;
    var s := p + n;
    var d := |p| + i;
    assert s[d] == '.';
    forall k | d < k < |s| ensures s[k] != '.' {
      assert s[k] == n[k - |p|];
    }
    LastAt(s, '.', d);
    assert s[d..] == n[i..];
  }

  lemma LastAt(s: string, c: char, d: nat)
    requires d < |s| && s[d] == c
    requires forall k :: d < k < |s| ==> s[k] != c
    ensures LastIndexOf(s, c) == Some(d)
  {
    var r := LastIndexOf(s, c);
    assert r.Some?;
  }

  /** ASCII lower-casing of one character. */
  function LowerChar(c: char): char {
    if 'A' <= c <= 'Z' then (c - 'A' + 'a') as char else c
  }

  /** ASCII lower-casing; the suffixes the code compares against are ASCII. */
  function LowerAscii(s: string): (r: string)
    ensures |r| == |s|
  {
    seq(|s|, k requires 0 <= k < |s| => LowerChar(s[k]))
  }

  /** `str(PurePath(path).parent)`: everything before the last '/', the
      root when that is the only '/', and "." when there is none. */
  function Parent(path: string): (r: string)
    ensures r == "." || r == "/" || (|r| < |path| && r == path[..|r|] && path[|r|] == '/')
  {
    match LastIndexOf(path, '/')
    case None => "."
    case Some(i) => if i == 0 then "/" else path[..i]
  }

  /** `str(PurePath(dir) / name)` for a file name without '/'. */
  function Join(dir: string, name: string): string {
    if dir == "." || dir == "" then name
    else if dir[|dir| - 1] == '/' then dir + name
    else dir + "/" + name
  }

  /** The joined path ends in the joined name. */
  lemma NameOfJoin(dir: string, name: string)
    requires '/' !in name
    ensures Name(Join(dir, name)) == name
  {
    var r := Join(dir, name);
    if dir == "." || dir == "" {
      assert LastIndexOf(r, '/') == None;
    } else {
      var d := if dir[|dir| - 1] == '/' then |dir| - 1 else |dir|;
      assert r[d] == '/';
      forall k | d < k < |r| ensures r[k] != '/' {
        assert r[k] == name[k - d - 1];
      }
      LastAt(r, '/', d);
      assert r[d + 1..] == name;
    }
  }
}
