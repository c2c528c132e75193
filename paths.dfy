/**
  The parts of Go's `path/filepath` package that the upload queue relies on,
  for POSIX paths ('/' is the only separator and there are no volume names).

  `Base` follows `filepath.Base`: trailing separators are ignored, the empty
  path gives ".", a path made only of separators gives "/". `Dir` and `Join`
  are the same splits and concatenations without the lexical clean-up
  (`filepath.Clean`) that Go applies to their results.
*/
module Paths {

  type Path = string

  const Separator: char := '/'

  /** A non-empty name with no separator in it. */
  predicate IsName(s: string) {
    |s| > 0 && forall i :: 0 <= i < |s| ==> s[i] != Separator
  }

  /** A path element that names an entry itself: a name other than "." and "..", which `filepath.Clean` rewrites. */
  predicate IsElement(s: string) {
    IsName(s) && s != "." && s != ".."
  }

  /** `s` ends with `suffix`. */
  predicate EndsWith(s: string, suffix: string) {
    |suffix| <= |s| && s[|s| - |suffix|..] == suffix
  }

  /** The index of the last separator in `p`, or -1 when there is none. */
  function LastSeparator(p: Path): (r: int)
    ensures -1 <= r < |p|
    ensures 0 <= r ==> p[r] == Separator
    ensures forall k :: r < k < |p| ==> p[k] != Separator
  {
    if |p| == 0 then -1
    else if p[|p| - 1] == Separator then |p| - 1
    else LastSeparator(p[..|p| - 1])
  }

  /** `p` without the separators at its end. */
  function TrimTrailingSeparators(p: Path): (r: Path)
    ensures r <= p
    ensures r == [] || r[|r| - 1] != Separator
    ensures forall k :: |r| <= k < |p| ==> p[k] == Separator
  {
    if |p| > 0 && p[|p| - 1] == Separator then TrimTrailingSeparators(p[..|p| - 1]) else p
  }

  /** The last element of `p` (Go's `filepath.Base`). */
  function Base(p: Path): (r: Path)
    ensures p == [] ==> r == "."
    ensures p != [] && TrimTrailingSeparators(p) == [] ==> r == [Separator]
    ensures var t := TrimTrailingSeparators(p);
      t != [] ==> IsName(r) && EndsWith(t, r) && (|r| == |t| || t[|t| - |r| - 1] == Separator)
  {
    if p == [] then "."
    else
      var t := TrimTrailingSeparators(p);
      if t == [] then [Separator]
      else t[LastSeparator(t) + 1..]
  }

  /** Everything before the last separator of `p` (Go's `filepath.Dir`, without `Clean`). */
  function Dir(p: Path): (r: Path)
    ensures LastSeparator(p) < 0 ==> r == "."
    ensures LastSeparator(p) >= 0 ==> r != [] && r <= p
    ensures LastSeparator(p) == 0 ==> r == [Separator]
    ensures LastSeparator(p) > 0 ==>
      |r| < |p| && p[|r|] == Separator && forall k :: |r| < k < |p| ==> p[k] != Separator
  {
    var i := LastSeparator(p);
    if i < 0 then "." else if i == 0 then [Separator] else p[..i]
  }

  /** `a` and `b` joined by one separator; an empty side is dropped (Go's `filepath.Join`, without `Clean`). */
  function Join(a: Path, b: Path): (r: Path)
    ensures a == [] ==> r == b
    ensures b == [] ==> r == a
    ensures a != [] && b != [] ==> a <= r && EndsWith(r, b) && |r| > |b| && r[|r| - |b| - 1] == Separator
    ensures a != [] && b != [] ==> |r| == |a| + |b| + (if a[|a| - 1] == Separator then 0 else 1)
  {
    if a == [] then b
    else if b == [] then a
    else if a[|a| - 1] == Separator then a + b
    else a + [Separator] + b
  }

  /** The last separator of `pre + name` is the one that ends `pre`, when `name` is an element. */
  lemma LastSeparatorBeforeElement(pre: Path, name: string)
    requires |pre| > 0 && pre[|pre| - 1] == Separator
    requires IsName(name)
    ensures LastSeparator(pre + name) == |pre| - 1
  {
    assert (pre + name)[|pre| - 1] == Separator;
  }

  /** Joining an element onto any directory makes it the path's base name. */
  lemma BaseOfJoin(dir: Path, name: string)
    requires IsElement(name)
    ensures Base(Join(dir, name)) == name
  {
    var p := Join(dir, name);
    assert p[|p| - 1] == name[|name| - 1];
    assert TrimTrailingSeparators(p) == p;
    if dir == [] {
      assert LastSeparator(p) == -1;
    } else if dir[|dir| - 1] == Separator {
      LastSeparatorBeforeElement(dir, name);
      assert p[|dir|..] == name;
    } else {
      LastSeparatorBeforeElement(dir + [Separator], name);
      assert p == (dir + [Separator]) + name;
      assert p[|dir| + 1..] == name;
    }
  }

  /** A directory that does not end in a separator is the `Dir` of any element joined onto it. */
  lemma DirOfJoin(dir: Path, name: string)
    requires IsElement(name)
    requires dir != [] && (dir == [Separator] || dir[|dir| - 1] != Separator)
    ensures Dir(Join(dir, name)) == dir
  {
    var p := Join(dir, name);
    if dir == [Separator] {
      LastSeparatorBeforeElement(dir, name);
    } else {
      LastSeparatorBeforeElement(dir + [Separator], name);
      assert p == (dir + [Separator]) + name;
      assert p[..|dir|] == dir;
    }
  }
}
