/**
 * machine_copy_files.py: the `mkdir -p` walk over remote paths and the
 * recursive copy of a local tree, with the counters the copier keeps.
 * The remote file system is the set of paths `stat` finds; the local
 * tree is a value.
 */
module CopyFiles {
  import opened Text
  import opened Order
  import opened Paths

  /** `stat` finds `p`: it was there or was created, and a root always exists. */
  predicate Present(existing: set<string>, p: string) {
    p in existing || IsRootPath(p)
  }

  /** The walk stops at "/" or "". */
  predicate AtTop(s: string) {
    s == [] || (|s| == 1 && s[0] == '/')
  }

  /** Creating directories never makes a present path disappear. */
  lemma PresentGrows(before: set<string>, after: set<string>, p: string)
    requires before <= after && Present(before, p)
    ensures Present(after, p)
  {
  }

  /**
   * The paths `_remote_mkdir_p` collects for `p`, child first: `p` and its
   * ancestors up to the first one that is present, "/" or "".
   */
  function MissingChain(existing: set<string>, p: string): (r: seq<string>)
    ensures r == [] <==> Present(existing, p)
    ensures r != [] ==> r[0] == p
    decreases |p|
  {
    if Present(existing, p) then []
    else
      var parent := Dirname(p);
      if AtTop(parent) then [p]
      else [p] + MissingChain(existing, parent)
  }

  /** One step of the walk: a missing path, then the chain of its parent unless that is "/" or "". */
  lemma ChainStep(existing: set<string>, current: string)
    requires !Present(existing, current)
    ensures var parent := Dirname(current);
      && (AtTop(parent) ==> MissingChain(existing, current) == [current])
      && (!AtTop(parent) ==> MissingChain(existing, current) == [current] + MissingChain(existing, parent) && |parent| < |current|)
  {
  }

  /** No collected path is present: each is created. */
  lemma {:induction false} ChainMissing(existing: set<string>, p: string)
    ensures var r := MissingChain(existing, p); forall k :: 0 <= k < |r| ==> !Present(existing, r[k])
    decreases |p|
  {
    if !Present(existing, p) {
      ChainStep(existing, p);
      var parent := Dirname(p);
      if !AtTop(parent) {
        ChainMissing(existing, parent);
        var r := MissingChain(existing, p);
        forall k | 0 < k < |r|
          ensures !Present(existing, r[k])
        {
          assert r[k] == MissingChain(existing, parent)[k - 1];
        }
      }
    }
  }

  /**
   * Each collected path after the first is the parent of the one before,
   * is shorter, and is neither "/" nor "".
   */
  lemma {:induction false} ChainParents(existing: set<string>, p: string)
    ensures var r := MissingChain(existing, p);
      forall k :: 0 < k < |r| ==> r[k] == Dirname(r[k - 1]) && |r[k]| < |r[k - 1]| && !AtTop(r[k])
    decreases |p|
  {
    if !Present(existing, p) {
      ChainStep(existing, p);
      var parent := Dirname(p);
      if !AtTop(parent) {
        ChainParents(existing, parent);
        var r := MissingChain(existing, p);
        var rest := MissingChain(existing, parent);
        forall k | 0 < k < |r|
          ensures r[k] == Dirname(r[k - 1]) && |r[k]| < |r[k - 1]| && !AtTop(r[k])
        {
          if k > 1 {
            assert r[k] == rest[k - 1] && r[k - 1] == rest[k - 2];
          }
        }
      }
    }
  }

  /** The walk stops below a parent that is present, "/" or "". */
  lemma {:induction false} ChainTop(existing: set<string>, p: string)
    ensures var r := MissingChain(existing, p);
      r != [] ==> var top := Dirname(r[|r| - 1]); AtTop(top) || Present(existing, top)
    decreases |p|
  {
    if !Present(existing, p) {
      ChainStep(existing, p);
      var parent := Dirname(p);
      if !AtTop(parent) {
        var rest := MissingChain(existing, parent);
        var r := [p] + rest;
        if rest == [] {
          assert r[|r| - 1] == p;
        } else {
          ChainTop(existing, parent);
          assert r[|r| - 1] == rest[|rest| - 1];
        }
      }
    }
  }

  lemma ReversedStep<T>(s: seq<T>, i: nat)
    requires i < |s|
    ensures Reversed(s[i..]) == Reversed(s[i + 1..]) + [s[i]]
  {
    var a := Reversed(s[i..]);
    var b := Reversed(s[i + 1..]) + [s[i]];
    assert |a| == |b|;
    forall j | 0 <= j < |a|
      ensures a[j] == b[j]
    {
      if j < |a| - 1 {
        assert a[j] == s[i..][|s| - i - 1 - j] == s[i + 1..][|s| - i - 2 - j];
      }
    }
  }

  /** The paths of a sequence, as a set. */
  function Elements(s: seq<string>): (r: set<string>)
    ensures forall x :: x in r <==> x in s
    decreases |s|
  {
    if s == [] then {} else {s[0]} + Elements(s[1..])
  }

  lemma ElementsStep(s: seq<string>, i: nat)
    requires i < |s|
    ensures Elements(s[i..]) == {s[i]} + Elements(s[i + 1..])
  {
    assert s[i..][1..] == s[i + 1..];
  }

  lemma AppendAssoc<T>(a: seq<T>, b: seq<T>, c: seq<T>)
    ensures a + (b + c) == (a + b) + c
  {
  }

  function Reversed<T>(s: seq<T>): (r: seq<T>)
    ensures |r| == |s|
    ensures forall i :: 0 <= i < |s| ==> r[i] == s[|s| - 1 - i]
    decreases |s|
  {
    if s == [] then [] else [s[|s| - 1]] + Reversed(s[..|s| - 1])
  }

  /**
   * Creating the chain in reverse makes every parent before its child: the
   * first directory made has a parent that exists, is "/" or is "", and
   * each later one's parent is the directory made just before it.
   */
  lemma ParentsFirst(existing: set<string>, p: string)
    ensures var made := Reversed(MissingChain(existing, p));
      && (made != [] ==> var top := Dirname(made[0]); AtTop(top) || Present(existing, top))
      && forall j :: 0 < j < |made| ==> made[j - 1] == Dirname(made[j])
  {
    var chain := MissingChain(existing, p);
    var made := Reversed(chain);
    ChainParents(existing, p);
    ChainTop(existing, p);
    forall j | 0 < j < |made|
      ensures made[j - 1] == Dirname(made[j])
    {
      var k := |chain| - j;
      assert made[j - 1] == chain[k] && made[j] == chain[k - 1];
    }
  }

  /** The collected directories are distinct: each is shorter than the one before. */
  lemma ChainDistinct(existing: set<string>, p: string, i: nat, j: nat)
    requires i < j < |MissingChain(existing, p)|
    ensures |MissingChain(existing, p)[j]| < |MissingChain(existing, p)[i]|
    decreases j - i
  {
    var chain := MissingChain(existing, p);
    ChainParents(existing, p);
    if i + 1 < j {
      ChainDistinct(existing, p, i + 1, j);
    }
  }

  /**
   * A local tree entry: a file, or a directory with its unordered listing.
   * The children of a directory come from `os.listdir`, so their names are
   * distinct.
   */
  datatype LocalNode = LocalFile(name: string) | LocalDir(name: string, children: seq<LocalNode>)

  function NodeKey(n: LocalNode): seq<string> {
    [n.name]
  }

  /** `sorted(os.listdir(...))`: entries in ascending name order. */
  function Listing(entries: seq<LocalNode>): (r: seq<LocalNode>)
    ensures multiset(r) == multiset(entries)
  {
    SortAscending(entries, NodeKey)
  }

  /** The number of files in a tree, whatever the listing order. */
  function NodeFiles(n: LocalNode): nat
    decreases n
  {
    match n
    case LocalFile(_) => 1
    case LocalDir(_, children) => FileCount(children)
  }

  function FileCount(entries: seq<LocalNode>): nat
    decreases entries
  {
    if entries == [] then 0 else NodeFiles(entries[0]) + FileCount(entries[1..])
  }

  /** The `(local, remote)` pairs put for a directory's entries, in listing order. */
  function Puts(localPath: string, entries: seq<LocalNode>, remotePath: string): seq<(string, string)>
    decreases entries, 1
  {
    PutsOf(localPath, Listing(entries), |entries|, remotePath, entries)
  }

  /** The pairs put for the first `n` entries of a listing of `entries`. */
  function PutsOf(localPath: string, listing: seq<LocalNode>, n: nat, remotePath: string, entries: seq<LocalNode>)
    : seq<(string, string)>
    requires n <= |listing| && multiset(listing) == multiset(entries)
    decreases entries, 0, n
  {
    if n == 0 then []
    else
      var e := listing[n - 1];
      assert e in multiset(entries);
      PutsOf(localPath, listing, n - 1, remotePath, entries) + EntryPuts(localPath, e, remotePath, entries)
  }

  function EntryPuts(localPath: string, e: LocalNode, remotePath: string, entries: seq<LocalNode>)
    : seq<(string, string)>
    requires e in entries
    decreases entries, 0, 0
  {
    match e
    case LocalFile(name) => [(JoinPath(localPath, name), remotePath + "/" + name)]
    case LocalDir(name, children) => Puts(JoinPath(localPath, name), children, remotePath + "/" + name)
  }

  lemma {:induction false} FileCountAppend(a: seq<LocalNode>, x: LocalNode)
    ensures FileCount(a + [x]) == FileCount(a) + NodeFiles(x)
    decreases |a|
  {
    if a == [] {
      assert [x][1..] == [];
    } else {
      assert (a + [x])[1..] == a[1..] + [x];
      FileCountAppend(a[1..], x);
    }
  }

  lemma {:induction false} FileCountInsert(x: LocalNode, s: seq<LocalNode>)
    ensures FileCount(InsertAscending(x, s, NodeKey)) == NodeFiles(x) + FileCount(s)
    decreases |s|
  {
    if s == [] || !PathLess(NodeKey(s[0]), NodeKey(x)) {
      assert ([x] + s)[1..] == s;
    } else {
      var r := InsertAscending(x, s, NodeKey);
      assert r[1..] == InsertAscending(x, s[1..], NodeKey);
      FileCountInsert(x, s[1..]);
    }
  }

  /** Sorting a listing does not change how many files it holds. */
  lemma {:induction false} FileCountListing(entries: seq<LocalNode>)
    ensures FileCount(Listing(entries)) == FileCount(entries)
    decreases |entries|
  {
    if entries != [] {
      FileCountListing(entries[1..]);
      FileCountInsert(entries[0], Listing(entries[1..]));
    }
  }

  /** One put per file of the tree: after a complete copy `files_copied` counts the tree's files. */
  lemma {:induction false} OnePutPerFile(localPath: string, entries: seq<LocalNode>, remotePath: string)
    ensures |Puts(localPath, entries, remotePath)| == FileCount(entries)
    decreases entries, 1
  {
    PutsOfCount(localPath, Listing(entries), |entries|, remotePath, entries);
    assert Listing(entries)[..|entries|] == Listing(entries);
    FileCountListing(entries);
  }

  lemma {:induction false} PutsOfCount(localPath: string, listing: seq<LocalNode>, n: nat, remotePath: string, entries: seq<LocalNode>)
    requires n <= |listing| && multiset(listing) == multiset(entries)
    ensures |PutsOf(localPath, listing, n, remotePath, entries)| == FileCount(listing[..n])
    decreases entries, 0, n
  {
    if n > 0 {
      var e := listing[n - 1];
      assert e in multiset(entries);
      PutsOfCount(localPath, listing, n - 1, remotePath, entries);
      assert listing[..n] == listing[..n - 1] + [e];
      FileCountAppend(listing[..n - 1], e);
      match e
      case LocalFile(_) =>
      case LocalDir(name, children) =>
        OnePutPerFile(JoinPath(localPath, name), children, remotePath + "/" + name);
    }
  }

  /** The number of directories in a tree, the top one not included. */
  function NodeDirs(n: LocalNode): nat
    decreases n
  {
    match n
    case LocalFile(_) => 0
    case LocalDir(_, children) => 1 + DirCount(children)
  }

  function DirCount(entries: seq<LocalNode>): nat
    decreases entries
  {
    if entries == [] then 0 else NodeDirs(entries[0]) + DirCount(entries[1..])
  }

  lemma {:induction false} DirCountAppend(a: seq<LocalNode>, x: LocalNode)
    ensures DirCount(a + [x]) == DirCount(a) + NodeDirs(x)
    decreases |a|
  {
    if a == [] {
      assert [x][1..] == [];
    } else {
      assert (a + [x])[1..] == a[1..] + [x];
      DirCountAppend(a[1..], x);
    }
  }

  lemma {:induction false} DirCountInsert(x: LocalNode, s: seq<LocalNode>)
    ensures DirCount(InsertAscending(x, s, NodeKey)) == NodeDirs(x) + DirCount(s)
    decreases |s|
  {
    if s == [] || !PathLess(NodeKey(s[0]), NodeKey(x)) {
      assert ([x] + s)[1..] == s;
    } else {
      var r := InsertAscending(x, s, NodeKey);
      assert r[1..] == InsertAscending(x, s[1..], NodeKey);
      DirCountInsert(x, s[1..]);
    }
  }

  /** Sorting a listing does not change how many directories it holds. */
  lemma {:induction false} DirCountListing(entries: seq<LocalNode>)
    ensures DirCount(Listing(entries)) == DirCount(entries)
    decreases |entries|
  {
    if entries != [] {
      DirCountListing(entries[1..]);
      DirCountInsert(entries[0], Listing(entries[1..]));
    }
  }

  // ---------------------------------------------------------------------
  // What the copy does to the remote side
  // ---------------------------------------------------------------------

  /** The remote side as the copier changes it: the paths `stat` finds, and the directories made in order. */
  datatype Remote = Remote(existing: set<string>, made: seq<string>)

  /** `_remote_mkdir_p(p)`: the missing chain of `p` is made, parents first. */
  function MkdirEffect(r: Remote, p: string): Remote {
    var chain := MissingChain(r.existing, p);
    Remote(r.existing + Elements(chain), r.made + Reversed(chain))
  }

  /** `_copy_recursive(local, p)` on the remote side: `p` is made, then each entry in name order. */
  function CopyEffect(r: Remote, entries: seq<LocalNode>, p: string): Remote
    decreases entries, 1
  {
    EntriesEffect(MkdirEffect(r, p), Listing(entries), |entries|, p, entries)
  }

  /** The remote side after the first `n` entries of a listing of `entries`. */
  function EntriesEffect(r: Remote, listing: seq<LocalNode>, n: nat, p: string, entries: seq<LocalNode>): Remote
    requires n <= |listing| && multiset(listing) == multiset(entries)
    decreases entries, 0, n
  {
    if n == 0 then r
    else
      var e := listing[n - 1];
      assert e in multiset(entries);
      EntryEffect(EntriesEffect(r, listing, n - 1, p, entries), e, p, entries)
  }

  /** One entry: a directory is copied recursively, and a file that was put is found by `stat` afterwards. */
  function EntryEffect(r: Remote, e: LocalNode, p: string, entries: seq<LocalNode>): Remote
    requires e in entries
    decreases entries, 0, 0
  {
    match e
    case LocalFile(name) => Remote(r.existing + {p + "/" + name}, r.made)
    case LocalDir(name, children) => CopyEffect(r, children, p + "/" + name)
  }

  /** `after` begins with `before`: no directory made earlier drops out of the record. */
  predicate Extends(after: seq<string>, before: seq<string>) {
    |before| <= |after| && after[..|before|] == before
  }

  lemma ExtendsTransitive(a: seq<string>, b: seq<string>, c: seq<string>)
    requires Extends(b, a) && Extends(c, b)
    ensures Extends(c, a)
  {
    assert c[..|a|] == c[..|b|][..|a|];
  }

  /** Every directory of the tree exists at `p` followed by "/" and the names leading to it. */
  predicate TreePresent(existing: set<string>, p: string, entries: seq<LocalNode>)
    decreases entries
  {
    forall e :: e in entries && e.LocalDir? ==>
      Present(existing, p + "/" + e.name) && TreePresent(existing, p + "/" + e.name, e.children)
  }

  lemma {:induction false} TreePresentGrows(before: set<string>, after: set<string>, p: string, entries: seq<LocalNode>)
    requires before <= after && TreePresent(before, p, entries)
    ensures TreePresent(after, p, entries)
    decreases entries
  {
    forall e | e in entries && e.LocalDir?
      ensures Present(after, p + "/" + e.name) && TreePresent(after, p + "/" + e.name, e.children)
    {
      TreePresentGrows(before, after, p + "/" + e.name, e.children);
    }
  }

  /** `mkdir -p` keeps what was there and leaves `p` present. */
  lemma MkdirGrows(r: Remote, p: string)
    ensures var m := MkdirEffect(r, p);
      Extends(m.made, r.made) && r.existing <= m.existing && Present(m.existing, p)
  {
    var chain := MissingChain(r.existing, p);
    if chain != [] {
      assert chain[0] in Elements(chain);
    }
    assert (r.made + Reversed(chain))[..|r.made|] == r.made;
  }

  /**
   * After a copy, everything found before is still found and every directory
   * made before is still recorded, the destination exists, and so does every
   * directory of the tree below it.
   */
  lemma {:induction false} CopyGrows(r: Remote, entries: seq<LocalNode>, p: string)
    ensures var s := CopyEffect(r, entries, p);
      && Extends(s.made, r.made) && r.existing <= s.existing
      && Present(s.existing, p) && TreePresent(s.existing, p, entries)
    decreases entries, 1
  {
    var m := MkdirEffect(r, p);
    var listing := Listing(entries);
    var s := CopyEffect(r, entries, p);
    MkdirGrows(r, p);
    EntriesGrows(m, listing, |entries|, p, entries);
    ExtendsTransitive(r.made, m.made, s.made);
    PresentGrows(m.existing, s.existing, p);
    forall e | e in entries && e.LocalDir?
      ensures Present(s.existing, p + "/" + e.name) && TreePresent(s.existing, p + "/" + e.name, e.children)
    {
      assert e in multiset(listing);
      var k :| 0 <= k < |listing| && listing[k] == e;
    }
  }

  /** The entry loop keeps what was there, and each directory visited so far exists with its tree. */
  lemma {:induction false} EntriesGrows(r: Remote, listing: seq<LocalNode>, n: nat, p: string, entries: seq<LocalNode>)
    requires n <= |listing| && multiset(listing) == multiset(entries)
    ensures var s := EntriesEffect(r, listing, n, p, entries);
      && Extends(s.made, r.made) && r.existing <= s.existing
      && forall k :: 0 <= k < n && listing[k].LocalDir? ==>
        Present(s.existing, p + "/" + listing[k].name) && TreePresent(s.existing, p + "/" + listing[k].name, listing[k].children)
    decreases entries, 0, n
  {
    if n == 0 {
      assert r.made[..|r.made|] == r.made;
    } else {
      var e := listing[n - 1];
      assert e in multiset(entries);
      var t := EntriesEffect(r, listing, n - 1, p, entries);
      var s := EntriesEffect(r, listing, n, p, entries);
      EntriesGrows(r, listing, n - 1, p, entries);
      EntryGrows(t, e, p, entries);
      ExtendsTransitive(r.made, t.made, s.made);
      forall k | 0 <= k < n - 1 && listing[k].LocalDir?
        ensures Present(s.existing, p + "/" + listing[k].name)
        ensures TreePresent(s.existing, p + "/" + listing[k].name, listing[k].children)
      {
        PresentGrows(t.existing, s.existing, p + "/" + listing[k].name);
        TreePresentGrows(t.existing, s.existing, p + "/" + listing[k].name, listing[k].children);
      }
    }
  }

  /** One entry keeps what was there; a directory then exists with its tree, and a file is found. */
  lemma {:induction false} EntryGrows(r: Remote, e: LocalNode, p: string, entries: seq<LocalNode>)
    requires e in entries
    ensures var s := EntryEffect(r, e, p, entries);
      && Extends(s.made, r.made) && r.existing <= s.existing
      && (e.LocalDir? ==> Present(s.existing, p + "/" + e.name) && TreePresent(s.existing, p + "/" + e.name, e.children))
      && (e.LocalFile? ==> p + "/" + e.name in s.existing)
    decreases entries, 0, 0
  {
    match e
    case LocalFile(name) =>
      assert r.made[..|r.made|] == r.made;
    case LocalDir(name, children) =>
      CopyGrows(r, children, p + "/" + name);
  }

  // ---------------------------------------------------------------------
  // The directory counter of a copy into a fresh destination
  // ---------------------------------------------------------------------

  /** `q` is `p` itself or lies below it. */
  predicate Under(q: string, p: string) {
    q == p || StartsWith(q, p + "/")
  }

  /** Whatever lies below `p/name` lies below `p`. */
  lemma UnderParent(q: string, p: string, name: string)
    requires Under(q, p + "/" + name)
    ensures Under(q, p)
  {
    var d := p + "/" + name;
    assert d[..|p| + 1] == p + "/";
    if q != d {
      assert q[..|p| + 1] == q[..|d| + 1][..|p| + 1] == (d + "/")[..|p| + 1];
    }
  }

  /** A path below `p/a` spells `a` right after `p/`, followed by its end or a '/'. */
  lemma NameAfter(q: string, p: string, a: string)
    requires Under(q, p + "/" + a)
    ensures |p| + 1 + |a| <= |q|
    ensures forall i :: 0 <= i < |a| ==> q[|p| + 1 + i] == a[i]
    ensures |q| == |p| + 1 + |a| || q[|p| + 1 + |a|] == '/'
  {
    var d := p + "/" + a;
    if q != d {
      assert forall i :: 0 <= i <= |d| ==> q[i] == q[..|d| + 1][i] == (d + "/")[i];
    }
  }

  /** No path lies below two different slash-free names of one directory. */
  lemma UnderOneName(q: string, p: string, a: string, b: string)
    requires a != [] && b != [] && Lacks(a, '/') && Lacks(b, '/')
    requires Under(q, p + "/" + a) && Under(q, p + "/" + b)
    ensures a == b
  {
    NameAfter(q, p, a);
    NameAfter(q, p, b);
    if |a| < |b| {
      assert false;
    } else if |b| < |a| {
      assert false;
    } else {
      assert forall i :: 0 <= i < |a| ==> a[i] == q[|p| + 1 + i] == b[i];
    }
  }

  /**
   * A destination the copy creates from scratch: no trailing '/', a parent
   * that exists or is "/" or "", and nothing found at or below it yet.
   */
  predicate FreshDir(existing: set<string>, p: string) {
    && p != [] && p[|p| - 1] != '/'
    && (AtTop(Dirname(p)) || Present(existing, Dirname(p)))
    && forall q :: q in existing ==> !Under(q, p)
  }

  /** A fresh destination is the only directory its `mkdir -p` creates. */
  lemma FreshChain(existing: set<string>, p: string)
    requires FreshDir(existing, p)
    ensures MissingChain(existing, p) == [p]
  {
    assert p !in existing by {
      if p in existing {
        assert Under(p, p);
      }
    }
    assert !IsRootPath(p) by {
      assert p[|p| - 1] != '/';
    }
    ChainStep(existing, p);
  }

  /** Sibling names differ, as `os.listdir` gives them. */
  predicate DistinctNames(s: seq<LocalNode>) {
    forall i, j :: 0 <= i < j < |s| ==> s[i].name != s[j].name
  }

  /** In every directory of the tree the names are distinct, non-empty and free of '/'. */
  predicate WellNamed(entries: seq<LocalNode>)
    decreases entries
  {
    && DistinctNames(entries)
    && forall e :: e in entries ==> e.name != [] && Lacks(e.name, '/') && (e.LocalDir? ==> WellNamed(e.children))
  }

  lemma {:induction false} InsertDistinct(x: LocalNode, s: seq<LocalNode>)
    requires DistinctNames(s) && forall k :: 0 <= k < |s| ==> s[k].name != x.name
    ensures DistinctNames(InsertAscending(x, s, NodeKey))
    decreases |s|
  {
    if s != [] && PathLess(NodeKey(s[0]), NodeKey(x)) {
      var t := InsertAscending(x, s[1..], NodeKey);
      InsertDistinct(x, s[1..]);
      forall k | 0 <= k < |t|
        ensures t[k].name != s[0].name
      {
        assert t[k] in multiset(t);
        if t[k] != x {
          assert t[k] in multiset(s[1..]);
          var m :| 0 <= m < |s[1..]| && s[1..][m] == t[k];
          assert s[m + 1] == t[k];
        }
      }
      assert InsertAscending(x, s, NodeKey) == [s[0]] + t;
    }
  }

  /** Sorting keeps the names of a listing distinct. */
  lemma {:induction false} ListingDistinct(entries: seq<LocalNode>)
    requires DistinctNames(entries)
    ensures DistinctNames(Listing(entries))
    decreases |entries|
  {
    if entries != [] {
      var rest := Listing(entries[1..]);
      assert DistinctNames(entries[1..]) by {
        forall i, j | 0 <= i < j < |entries| - 1
          ensures entries[1..][i].name != entries[1..][j].name
        {
          assert entries[1..][i] == entries[i + 1] && entries[1..][j] == entries[j + 1];
        }
      }
      ListingDistinct(entries[1..]);
      forall k | 0 <= k < |rest|
        ensures rest[k].name != entries[0].name
      {
        assert rest[k] in multiset(entries[1..]);
        var m :| 0 <= m < |entries[1..]| && entries[1..][m] == rest[k];
        assert entries[m + 1] == rest[k];
      }
      InsertDistinct(entries[0], rest);
    }
  }

  /**
   * A copy into a fresh destination makes the destination and one directory
   * per directory of the tree, and everything it adds lies below the
   * destination: `dirs_created` grows by one plus the tree's directories.
   */
  lemma {:induction false} FreshCopy(r: Remote, entries: seq<LocalNode>, p: string)
    requires FreshDir(r.existing, p) && WellNamed(entries)
    ensures var s := CopyEffect(r, entries, p);
      && |s.made| == |r.made| + 1 + DirCount(entries)
      && forall q :: q in s.existing ==> q in r.existing || Under(q, p)
    decreases entries, 1
  {
    var listing := Listing(entries);
    var m := MkdirEffect(r, p);
    FreshChain(r.existing, p);
    assert Elements([p]) == {p};
    assert |m.made| == |r.made| + 1;
    ListingDistinct(entries);
    forall q, j | q in m.existing && 0 <= j < |listing|
      ensures !Under(q, p + "/" + listing[j].name)
    {
      if q in r.existing && Under(q, p + "/" + listing[j].name) {
        UnderParent(q, p, listing[j].name);
      }
    }
    MkdirGrows(r, p);
    forall k | 0 <= k < |listing|
      ensures listing[k] in entries
    {
      assert listing[k] in multiset(listing);
    }
    FreshEntries(m, listing, |entries|, p, entries);
    assert listing[..|entries|] == listing;
    DirCountListing(entries);
  }

  lemma {:induction false} FreshEntries(r: Remote, listing: seq<LocalNode>, n: nat, p: string, entries: seq<LocalNode>)
    requires n <= |listing| && multiset(listing) == multiset(entries)
    requires WellNamed(entries) && DistinctNames(listing)
    requires forall k :: 0 <= k < |listing| ==> listing[k] in entries
    requires p != [] && p[|p| - 1] != '/' && Present(r.existing, p)
    requires forall q, j :: q in r.existing && 0 <= j < |listing| ==> !Under(q, p + "/" + listing[j].name)
    ensures var s := EntriesEffect(r, listing, n, p, entries);
      && |s.made| == |r.made| + DirCount(listing[..n])
      && (forall q :: q in s.existing ==> q in r.existing || Under(q, p))
      && forall q, j :: q in s.existing && n <= j < |listing| ==> !Under(q, p + "/" + listing[j].name)
    decreases entries, 0, n
  {
    if n == 0 {
      assert listing[..0] == [];
    } else {
      var e := listing[n - 1];
      var t := EntriesEffect(r, listing, n - 1, p, entries);
      FreshEntries(r, listing, n - 1, p, entries);
      EntriesGrows(r, listing, n - 1, p, entries);
      PresentGrows(r.existing, t.existing, p);
      DirCountPrefix(listing, n);
      FreshEntry(t, e, p, entries, listing, n - 1);
      var s := EntriesEffect(r, listing, n, p, entries);
      forall q | q in s.existing && q !in t.existing
        ensures Under(q, p)
      {
        UnderParent(q, p, e.name);
      }
    }
  }

  lemma DirCountPrefix(listing: seq<LocalNode>, n: nat)
    requires 0 < n <= |listing|
    ensures DirCount(listing[..n]) == DirCount(listing[..n - 1]) + NodeDirs(listing[n - 1])
  {
    assert listing[..n] == listing[..n - 1] + [listing[n - 1]];
    DirCountAppend(listing[..n - 1], listing[n - 1]);
  }

  /** One entry of a copy into a fresh destination adds only paths below its own name. */
  lemma {:induction false} FreshEntry(t: Remote, e: LocalNode, p: string, entries: seq<LocalNode>, listing: seq<LocalNode>, i: nat)
    requires e in entries && WellNamed(entries)
    requires i < |listing| && listing[i] == e && DistinctNames(listing)
    requires forall k :: 0 <= k < |listing| ==> listing[k] in entries
    requires p != [] && p[|p| - 1] != '/' && Present(t.existing, p)
    requires forall q, j :: q in t.existing && i <= j < |listing| ==> !Under(q, p + "/" + listing[j].name)
    ensures var s := EntryEffect(t, e, p, entries);
      && |s.made| == |t.made| + NodeDirs(e)
      && (forall q :: q in s.existing ==> q in t.existing || Under(q, p + "/" + e.name))
      && forall q, j :: q in s.existing && i < j < |listing| ==> !Under(q, p + "/" + listing[j].name)
    decreases entries, 0, 0
  {
    var child := p + "/" + e.name;
    var s := EntryEffect(t, e, p, entries);
    match e {
      case LocalFile(name) =>
      case LocalDir(name, children) =>
        DirnameOfChild(p, name);
        assert child[|child| - 1] == name[|name| - 1];
        FreshCopy(t, children, child);
    }
    forall q, j | q in s.existing && i < j < |listing|
      ensures !Under(q, p + "/" + listing[j].name)
    {
      if q !in t.existing && Under(q, p + "/" + listing[j].name) {
        UnderOneName(q, p, e.name, listing[j].name);
      }
    }
  }

  /** `/home/dn/x` is a fresh destination when only `/home/dn` exists. */
  lemma ExampleDestinationFresh()
    ensures FreshDir({"/home/dn"}, "/home/dn/x")
  {
    assert "/home/dn/x" == "/home/dn" + "/" + "x";
    DirnameOfChild("/home/dn", "x");
  }

  lemma ExampleTreeWellNamed()
    ensures WellNamed([LocalDir("sub", [LocalFile("a.txt")])])
    ensures DirCount([LocalDir("sub", [LocalFile("a.txt")])]) == 1
  {
    assert WellNamed([LocalFile("a.txt")]);
  }

  /** Copying one directory into a fresh destination makes both, and the directory exists afterwards. */
  lemma FreshCopyOneDir(r: Remote, sub: LocalNode, p: string)
    requires FreshDir(r.existing, p) && WellNamed([sub]) && sub.LocalDir?
    ensures |CopyEffect(r, [sub], p).made| == |r.made| + 1 + NodeDirs(sub)
    ensures Present(CopyEffect(r, [sub], p).existing, p + "/" + sub.name)
  {
    FreshCopy(r, [sub], p);
    CopyGrows(r, [sub], p);
    assert sub in [sub];
    assert [sub][1..] == [];
  }

  /** Copying a directory `sub` holding `a.txt` into a new `/home/dn/x` makes two directories, and `sub` exists afterwards. */
  lemma FreshCopyExample()
    ensures |CopyEffect(Remote({"/home/dn"}, []), [LocalDir("sub", [LocalFile("a.txt")])], "/home/dn/x").made| == 2
    ensures Present(CopyEffect(Remote({"/home/dn"}, []), [LocalDir("sub", [LocalFile("a.txt")])], "/home/dn/x").existing, "/home/dn/x" + "/" + "sub")
  {
    ExampleDestinationFresh();
    ExampleTreeWellNamed();
    FreshCopyOneDir(Remote({"/home/dn"}, []), LocalDir("sub", [LocalFile("a.txt")]), "/home/dn/x");
  }

  /** One round of the entry loop: the puts, the file count and the remote side each take one entry more. */
  lemma EntryStep(localPath: string, listing: seq<LocalNode>, i: nat, remotePath: string, entries: seq<LocalNode>, r: Remote)
    requires i < |listing| && multiset(listing) == multiset(entries)
    ensures listing[i] in entries
    ensures PutsOf(localPath, listing, i + 1, remotePath, entries)
      == PutsOf(localPath, listing, i, remotePath, entries) + EntryPuts(localPath, listing[i], remotePath, entries)
    ensures FileCount(listing[..i + 1]) == FileCount(listing[..i]) + NodeFiles(listing[i])
    ensures EntriesEffect(r, listing, i + 1, remotePath, entries)
      == EntryEffect(EntriesEffect(r, listing, i, remotePath, entries), listing[i], remotePath, entries)
  {
    assert listing[i] in multiset(entries);
    assert listing[..i + 1] == listing[..i] + [listing[i]];
    FileCountAppend(listing[..i], listing[i]);
  }

  /** What the entry loop has done once it has visited the whole listing. */
  lemma CopyDone(localPath: string, entries: seq<LocalNode>, remotePath: string, r: Remote)
    ensures var listing := Listing(entries);
      && listing[..|listing|] == listing
      && PutsOf(localPath, listing, |listing|, remotePath, entries) == Puts(localPath, entries, remotePath)
      && FileCount(listing[..|listing|]) == FileCount(entries)
      && EntriesEffect(MkdirEffect(r, remotePath), listing, |listing|, remotePath, entries) == CopyEffect(r, entries, remotePath)
    ensures var s := CopyEffect(r, entries, remotePath);
      && Extends(s.made, r.made) && r.existing <= s.existing
      && Present(s.existing, remotePath) && TreePresent(s.existing, remotePath, entries)
      && (FreshDir(r.existing, remotePath) && WellNamed(entries) ==> |s.made| == |r.made| + 1 + DirCount(entries))
  {
    var listing := Listing(entries);
    assert listing[..|listing|] == listing;
    FileCountListing(entries);
    CopyGrows(r, entries, remotePath);
    if FreshDir(r.existing, remotePath) && WellNamed(entries) {
      FreshCopy(r, entries, remotePath);
    }
  }

  /**
   * The copier of machine_copy_files.py: what `stat` finds on the remote
   * side, the directories made and the files put, in order, and the two
   * counters.
   */
  class MachineCopyFiles {
    var existing: set<string>
    var made: seq<string>
    var puts: seq<(string, string)>
    var dirsCreated: nat
    var filesCopied: nat

    /** The counters count what was done. */
    predicate Valid()
      reads this
    {
      dirsCreated == |made| && filesCopied == |puts|
    }

    constructor(existing: set<string>)
      ensures Valid()
      ensures this.existing == existing && made == [] && puts == []
    {
      this.existing := existing;
      made := [];
      puts := [];
      dirsCreated := 0;
      filesCopied := 0;
    }

    /**
     * The first half of `_remote_mkdir_p`: `stat` the path and its parents
     * until one is found or "/" or "" is reached, collecting the missing ones.
     */
    method CollectMissing(remotePath: string) returns (dirsToCreate: seq<string>)
      ensures dirsToCreate == MissingChain(existing, remotePath)
    {
      dirsToCreate := [];
      var current := remotePath;
      while true
        invariant dirsToCreate + MissingChain(existing, current) == MissingChain(existing, remotePath)
        decreases |current|
      {
        if Present(existing, current) {
          assert dirsToCreate + [] == dirsToCreate;
          break;
        }
        ChainStep(existing, current);
        ghost var before := dirsToCreate;
        dirsToCreate := dirsToCreate + [current];
        var parent := Dirname(current);
        if AtTop(parent) {
          break;
        }
        AppendAssoc(before, [current], MissingChain(existing, parent));
        current := parent;
      }
    }

    /**
     * The second half of `_remote_mkdir_p`: `mkdir` each collected path,
     * last collected first, counting each one.
     */
    method MakeDirs(dirsToCreate: seq<string>)
      requires Valid()
      modifies this
      ensures Valid()
      ensures existing == old(existing) + Elements(dirsToCreate)
      ensures made == old(made) + Reversed(dirsToCreate)
      ensures dirsCreated == old(dirsCreated) + |dirsToCreate|
      ensures puts == old(puts) && filesCopied == old(filesCopied)
    {
      var i := |dirsToCreate|;
      while i > 0
        invariant 0 <= i <= |dirsToCreate|
        invariant existing == old(existing) + Elements(dirsToCreate[i..])
        invariant made == old(made) + Reversed(dirsToCreate[i..])
        invariant dirsCreated == old(dirsCreated) + (|dirsToCreate| - i)
        invariant puts == old(puts) && filesCopied == old(filesCopied)
      {
        i := i - 1;
        var d := dirsToCreate[i];
        ReversedStep(dirsToCreate, i);
        ElementsStep(dirsToCreate, i);
        AppendAssoc(old(made), Reversed(dirsToCreate[i + 1..]), [d]);
        existing := existing + {d};
        made := made + [d];
        dirsCreated := dirsCreated + 1;
      }
      assert dirsToCreate[0..] == dirsToCreate;
    }

    /**
     * `_remote_mkdir_p`: the missing chain of `remotePath` is created parent
     * first, one count per directory; afterwards `remotePath` is present.
     */
    method RemoteMkdirP(remotePath: string)
      requires Valid()
      modifies this
      ensures Valid()
      ensures existing == old(existing) + Elements(MissingChain(old(existing), remotePath))
      ensures made == old(made) + Reversed(MissingChain(old(existing), remotePath))
      ensures dirsCreated == old(dirsCreated) + |MissingChain(old(existing), remotePath)|
      ensures puts == old(puts) && filesCopied == old(filesCopied)
      ensures Present(existing, remotePath)
    {
      var dirsToCreate := CollectMissing(remotePath);
      MakeDirs(dirsToCreate);
      if dirsToCreate != [] {
        assert dirsToCreate[0] in existing;
      }
    }

    /**
     * `_copy_recursive`: makes `remotePath`, then visits the entries in name
     * order, recursing into directories and putting files to
     * `remotePath + "/" + name`, one count per file put. The remote side
     * ends as `CopyEffect` describes; into a fresh destination the directory
     * counter grows by one plus the number of directories in the tree.
     */
    method CopyRecursive(localPath: string, entries: seq<LocalNode>, remotePath: string)
      requires Valid()
      modifies this
      ensures Valid()
      ensures puts == old(puts) + Puts(localPath, entries, remotePath)
      ensures filesCopied == old(filesCopied) + FileCount(entries)
      ensures Remote(existing, made) == CopyEffect(Remote(old(existing), old(made)), entries, remotePath)
      ensures Extends(made, old(made)) && old(existing) <= existing
      ensures Present(existing, remotePath) && TreePresent(existing, remotePath, entries)
      ensures dirsCreated >= old(dirsCreated)
      ensures FreshDir(old(existing), remotePath) && WellNamed(entries) ==>
        dirsCreated == old(dirsCreated) + 1 + DirCount(entries)
      decreases entries, 1
    {
      ghost var start := Remote(existing, made);
      RemoteMkdirP(remotePath);
      ghost var afterMkdir := Remote(existing, made);
      var listing := Listing(entries);
      for i := 0 to |listing|
        invariant Valid()
        invariant puts == old(puts) + PutsOf(localPath, listing, i, remotePath, entries)
        invariant filesCopied == old(filesCopied) + FileCount(listing[..i])
        invariant Remote(existing, made) == EntriesEffect(afterMkdir, listing, i, remotePath, entries)
      {
        var e := listing[i];
        EntryStep(localPath, listing, i, remotePath, entries, afterMkdir);
        AppendAssoc(old(puts), PutsOf(localPath, listing, i, remotePath, entries), EntryPuts(localPath, e, remotePath, entries));
        CopyEntry(localPath, e, remotePath, entries);
      }
      CopyDone(localPath, entries, remotePath, start);
    }

    /** The body of the entry loop: recurse into a directory, put a file. */
    method CopyEntry(localPath: string, e: LocalNode, remotePath: string, ghost entries: seq<LocalNode>)
      requires Valid() && e in entries
      modifies this
      ensures Valid()
      ensures puts == old(puts) + EntryPuts(localPath, e, remotePath, entries)
      ensures filesCopied == old(filesCopied) + NodeFiles(e)
      ensures Remote(existing, made) == EntryEffect(Remote(old(existing), old(made)), e, remotePath, entries)
      ensures Extends(made, old(made)) && old(existing) <= existing
      ensures e.LocalFile? ==> remotePath + "/" + e.name in existing
      ensures e.LocalDir? ==> Present(existing, remotePath + "/" + e.name)
      ensures e.LocalDir? ==> TreePresent(existing, remotePath + "/" + e.name, e.children)
      ensures dirsCreated >= old(dirsCreated)
      decreases entries, 0
    {
      ghost var start := Remote(existing, made);
      var localEntry := JoinPath(localPath, e.name);
      var remoteEntry := remotePath + "/" + e.name;
      match e {
        case LocalDir(_, children) =>
          CopyRecursive(localEntry, children, remoteEntry);
        case LocalFile(_) =>
          puts := puts + [(localEntry, remoteEntry)];
          existing := existing + {remoteEntry};
          filesCopied := filesCopied + 1;
      }
      EntryGrows(start, e, remotePath, entries);
    }
  }
}
