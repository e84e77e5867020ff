/**
 * The path helpers the scripts rely on: pathlib's `suffix` and `stem` of a
 * file name, and `os.path.dirname` and `os.path.join` on POSIX strings.
 */
module Paths {
  import opened Wrappers
  import opened Text

  /** The index of the last `c` in `s`, as `str.rfind` gives it (None for -1). */
  function LastIndexOf(s: string, c: char): (r: Option<nat>)
    ensures r.Some? ==> r.value < |s| && s[r.value] == c && Lacks(s[r.value + 1..], c)
    ensures r.None? ==> Lacks(s, c)
    decreases |s|
  {
    if s == [] then None
    else if s[|s| - 1] == c then Some(|s| - 1)
    else
      var r := LastIndexOf(s[..|s| - 1], c);
      assert r.Some? ==> s[r.value + 1..] == s[..|s| - 1][r.value + 1..] + [s[|s| - 1]];
      r
  }

  /** A `c` with no `c` after it is the one `rfind` reports. */
  lemma {:induction false} LastOccurrence(s: string, c: char, k: nat)
    requires k < |s| && s[k] == c && Lacks(s[k + 1..], c)
    ensures LastIndexOf(s, c) == Some(k)
    decreases |s|
  {
    if k < |s| - 1 {
      assert s[|s| - 1] == s[k + 1..][|s| - k - 2];
      assert s[..|s| - 1][k + 1..] == s[k + 1..|s| - 1];
      LastOccurrence(s[..|s| - 1], c, k);
    }
  }

  /**
   * pathlib's `suffix` of a file name: from the last dot on, provided that
   * dot is neither the first nor the last character.
   */
  function Suffix(name: string): (r: string)
    ensures r == [] || (r[0] == '.' && 2 <= |r| < |name| && r == name[|name| - |r|..])
    ensures r != [] ==> Lacks(r[1..], '.')
  {
    match LastIndexOf(name, '.')
    case None => []
    case Some(i) => if 0 < i < |name| - 1 then name[i..] else []
  }

  /** pathlib's `stem`: the name without its suffix. */
  function Stem(name: string): (r: string)
    ensures r + Suffix(name) == name
  {
    name[..|name| - |Suffix(name)|]
  }

  /** A name that ends in one dotted extension has that extension as suffix and the rest as stem. */
  lemma SuffixOfExtension(base: string, ext: string)
    requires base != [] && base[0] != '.' && ext != [] && Lacks(ext, '.')
    ensures Suffix(base + "." + ext) == "." + ext
    ensures Stem(base + "." + ext) == base
  {
    var name := base + "." + ext;
    assert name[|base|] == '.';
    assert name[|base| + 1..] == ext;
    LastOccurrence(name, '.', |base|);
    assert name[|base|..] == "." + ext;
  }

  /** A name whose only dot is its first character has no suffix: `.md` is all stem. */
  lemma HiddenNameHasNoSuffix(rest: string)
    requires Lacks(rest, '.')
    ensures Suffix("." + rest) == []
    ensures Stem("." + rest) == "." + rest
  {
    var name := "." + rest;
    assert name[1..] == rest;
    LastOccurrence(name, '.', 0);
  }

  /** A name made of '/' only: every such path names the root. */
  predicate IsRootPath(s: string) {
    s != [] && forall i :: 0 <= i < |s| ==> s[i] == '/'
  }

  /** `p.rstrip('/')`. */
  function StripSlashes(p: string): (r: string)
    ensures |r| <= |p| && r == p[..|r|]
    ensures r == [] || r[|r| - 1] != '/'
    ensures forall i :: |r| <= i < |p| ==> p[i] == '/'
    decreases |p|
  {
    if p != [] && p[|p| - 1] == '/' then StripSlashes(p[..|p| - 1]) else p
  }

  /** Everything up to and including the last '/', or "" when there is none. */
  function Head(p: string): (r: string)
    ensures |r| <= |p| && r == p[..|r|]
    ensures r == [] || r[|r| - 1] == '/'
    decreases |p|
  {
    if p == [] || p[|p| - 1] == '/' then p else Head(p[..|p| - 1])
  }

  /** Text without a '/' does not move the last '/'. */
  lemma {:induction false} HeadSkips(p: string, name: string)
    requires Lacks(name, '/')
    ensures Head(p + name) == Head(p)
    decreases |name|
  {
    if name != [] {
      var q := p + name;
      assert q[|q| - 1] == name[|name| - 1];
      assert q[..|q| - 1] == p + name[..|name| - 1];
      HeadSkips(p, name[..|name| - 1]);
    } else {
      assert p + name == p;
    }
  }

  /**
   * POSIX `os.path.dirname`: everything up to the last '/', with trailing
   * slashes removed unless nothing but slashes is left.
   */
  function Dirname(p: string): (r: string)
    ensures |r| <= |p| && r == p[..|r|]
    ensures p != [] && !IsRootPath(p) ==> |r| < |p|
    ensures r == [] || IsRootPath(r) || r[|r| - 1] != '/'
  {
    var head := Head(p);
    if IsRootPath(head) then
      assert head != p || |head| < |p| || IsRootPath(p);
      head
    else StripSlashes(head)
  }

  /** The parent of a path in a directory is that directory; the parent of a bare name is "". */
  lemma DirnameOfChild(dir: string, name: string)
    requires dir != [] && dir[|dir| - 1] != '/' && name != [] && Lacks(name, '/')
    ensures Dirname(dir + "/" + name) == dir
  {
    HeadSkips(dir + "/", name);
    assert Head(dir + "/") == dir + "/";
    assert (dir + "/")[|dir|] != dir[|dir| - 1];
    assert (dir + "/")[..|dir|] == dir;
  }

  lemma DirnameOfName(name: string)
    requires Lacks(name, '/')
    ensures Dirname(name) == []
  {
    HeadSkips([], name);
    assert [] + name == name;
  }

  /** `os.path.join(a, b)`: an absolute `b` replaces `a`; otherwise one '/' between them. */
  function JoinPath(a: string, b: string): (r: string)
    ensures !StartsWith(b, "/") && a != [] && a[|a| - 1] != '/' ==> r == a + "/" + b
  {
    if StartsWith(b, "/") then b
    else if a == [] || a[|a| - 1] == '/' then a + b
    else a + "/" + b
  }
}
