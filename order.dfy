/**
 * Python's ordering of strings and paths, and its stable `sorted`, in both
 * directions. A pathlib path compares part by part, each part in code-point
 * order; a name inside a directory is the one-part path `[name]`.
 */
module Order {

  /** Python's `a < b` on str: code-point order, a proper prefix first. */
  predicate StrLess(a: string, b: string)
    decreases |a|
  {
    if a == [] then b != []
    else if b == [] then false
    else a[0] < b[0] || (a[0] == b[0] && StrLess(a[1..], b[1..]))
  }

  /** `a < b` on paths: the first differing part decides, a proper prefix first. */
  predicate PathLess(a: seq<string>, b: seq<string>)
    decreases |a|
  {
    if a == [] then b != []
    else if b == [] then false
    else StrLess(a[0], b[0]) || (a[0] == b[0] && PathLess(a[1..], b[1..]))
  }

  lemma {:induction false} StrLessIrreflexive(a: string)
    ensures !StrLess(a, a)
    decreases |a|
  {
    if a != [] {
      StrLessIrreflexive(a[1..]);
    }
  }

  lemma {:induction false} StrLessTransitive(a: string, b: string, c: string)
    requires StrLess(a, b) && StrLess(b, c)
    ensures StrLess(a, c)
    decreases |a|
  {
    if a != [] && a[0] == b[0] && b[0] == c[0] {
      StrLessTransitive(a[1..], b[1..], c[1..]);
    }
  }

  lemma {:induction false} StrLessTotal(a: string, b: string)
    ensures a == b || StrLess(a, b) || StrLess(b, a)
    decreases |a|
  {
    if a != [] && b != [] && a[0] == b[0] {
      StrLessTotal(a[1..], b[1..]);
      if a[1..] == b[1..] {
        assert a == [a[0]] + a[1..] && b == [b[0]] + b[1..];
      }
    }
  }

  lemma {:induction false} PathLessIrreflexive(a: seq<string>)
    ensures !PathLess(a, a)
    decreases |a|
  {
    if a != [] {
      StrLessIrreflexive(a[0]);
      PathLessIrreflexive(a[1..]);
    }
  }

  lemma {:induction false} PathLessTransitive(a: seq<string>, b: seq<string>, c: seq<string>)
    requires PathLess(a, b) && PathLess(b, c)
    ensures PathLess(a, c)
    decreases |a|
  {
    if a != [] {
      if StrLess(a[0], b[0]) && StrLess(b[0], c[0]) {
        StrLessTransitive(a[0], b[0], c[0]);
      } else if a[0] == b[0] && b[0] == c[0] {
        PathLessTransitive(a[1..], b[1..], c[1..]);
      }
    }
  }

  lemma {:induction false} PathLessTotal(a: seq<string>, b: seq<string>)
    ensures a == b || PathLess(a, b) || PathLess(b, a)
    decreases |a|
  {
    if a != [] && b != [] {
      StrLessTotal(a[0], b[0]);
      if a[0] == b[0] {
        PathLessTotal(a[1..], b[1..]);
        if a[1..] == b[1..] {
          assert a == [a[0]] + a[1..] && b == [b[0]] + b[1..];
        }
      }
    }
  }

  /** Two one-part paths compare as their names. */
  lemma NamePaths(a: string, b: string)
    ensures PathLess([a], [b]) <==> StrLess(a, b)
  {
    assert [a][1..] == [] && [b][1..] == [];
  }

  // ---------------------------------------------------------------------
  // sorted(xs, key=...) and sorted(xs, key=..., reverse=True)
  // ---------------------------------------------------------------------

  /** No element is followed by one with a smaller key. */
  predicate Ascending<T>(xs: seq<T>, key: T -> seq<string>) {
    forall i, j :: 0 <= i < j < |xs| ==> !PathLess(key(xs[j]), key(xs[i]))
  }

  /** No element is followed by one with a larger key. */
  predicate Descending<T>(xs: seq<T>, key: T -> seq<string>) {
    forall i, j :: 0 <= i < j < |xs| ==> !PathLess(key(xs[i]), key(xs[j]))
  }

  /** Puts `x` before the first element whose key is not smaller, so `x` stays ahead of its equals. */
  function InsertAscending<T>(x: T, s: seq<T>, key: T -> seq<string>): (r: seq<T>)
    ensures multiset(r) == multiset(s) + multiset{x}
    ensures |r| == |s| + 1
    decreases |s|
  {
    if s == [] || !PathLess(key(s[0]), key(x)) then [x] + s
    else
      assert s == [s[0]] + s[1..];
      [s[0]] + InsertAscending(x, s[1..], key)
  }

  /** Python's stable `sorted` by key. */
  function SortAscending<T>(xs: seq<T>, key: T -> seq<string>): (r: seq<T>)
    ensures multiset(r) == multiset(xs)
    ensures |r| == |xs|
    decreases |xs|
  {
    if xs == [] then []
    else
      assert xs == [xs[0]] + xs[1..];
      InsertAscending(xs[0], SortAscending(xs[1..], key), key)
  }

  /** Puts `x` before the first element whose key is not larger. */
  function InsertDescending<T>(x: T, s: seq<T>, key: T -> seq<string>): (r: seq<T>)
    ensures multiset(r) == multiset(s) + multiset{x}
    ensures |r| == |s| + 1
    decreases |s|
  {
    if s == [] || !PathLess(key(x), key(s[0])) then [x] + s
    else
      assert s == [s[0]] + s[1..];
      [s[0]] + InsertDescending(x, s[1..], key)
  }

  /** Python's stable `sorted(..., reverse=True)` by key. */
  function SortDescending<T>(xs: seq<T>, key: T -> seq<string>): (r: seq<T>)
    ensures multiset(r) == multiset(xs)
    ensures |r| == |xs|
    decreases |xs|
  {
    if xs == [] then []
    else
      assert xs == [xs[0]] + xs[1..];
      InsertDescending(xs[0], SortDescending(xs[1..], key), key)
  }

  lemma {:induction false} PathLessAsymmetric(a: seq<string>, b: seq<string>)
    ensures PathLess(a, b) ==> !PathLess(b, a)
    decreases |a|
  {
    if a != [] && b != [] {
      StrLessAsymmetric(a[0], b[0]);
      StrLessIrreflexive(a[0]);
      PathLessAsymmetric(a[1..], b[1..]);
    }
  }

  lemma {:induction false} StrLessAsymmetric(a: string, b: string)
    ensures StrLess(a, b) ==> !StrLess(b, a)
    decreases |a|
  {
    if a != [] && b != [] {
      StrLessAsymmetric(a[1..], b[1..]);
    }
  }

  /** "Not below" is transitive: `a <= c` and `b <= a` give `b <= c`. */
  lemma NotBelowTransitive(a: seq<string>, b: seq<string>, c: seq<string>)
    requires !PathLess(c, a) && !PathLess(a, b)
    ensures !PathLess(c, b)
  {
    PathLessTotal(a, c);
    PathLessTotal(a, b);
    PathLessIrreflexive(c);
    PathLessAsymmetric(b, c);
    if PathLess(a, c) && PathLess(b, a) {
      PathLessTransitive(b, a, c);
    }
  }

  lemma {:induction false} InsertAscendingSorted<T>(x: T, s: seq<T>, key: T -> seq<string>)
    requires Ascending(s, key)
    ensures Ascending(InsertAscending(x, s, key), key)
    decreases |s|
  {
    var r := InsertAscending(x, s, key);
    if s == [] || !PathLess(key(s[0]), key(x)) {
      forall i, j | 0 <= i < j < |r|
        ensures !PathLess(key(r[j]), key(r[i]))
      {
        if i == 0 && j > 1 {
          NotBelowTransitive(key(s[0]), key(x), key(s[j - 1]));
        }
      }
    } else {
      InsertAscendingSorted(x, s[1..], key);
      var t := InsertAscending(x, s[1..], key);
      PathLessAsymmetric(key(s[0]), key(x));
      forall j | 0 <= j < |t|
        ensures !PathLess(key(t[j]), key(s[0]))
      {
        assert t[j] in multiset(s[1..]) + multiset{x};
        if t[j] != x {
          var k :| 0 <= k < |s[1..]| && s[1..][k] == t[j];
          assert s[k + 1] == t[j];
        }
      }
      ConsAscending(s[0], t, key);
    }
  }

  /** An element no later key falls below, put in front of an ascending run, keeps it ascending. */
  lemma ConsAscending<T>(h: T, t: seq<T>, key: T -> seq<string>)
    requires Ascending(t, key)
    requires forall j :: 0 <= j < |t| ==> !PathLess(key(t[j]), key(h))
    ensures Ascending([h] + t, key)
  {
    var r := [h] + t;
    forall i, j | 0 <= i < j < |r|
      ensures !PathLess(key(r[j]), key(r[i]))
    {
      assert r[j] == t[j - 1];
      if i > 0 {
        assert r[i] == t[i - 1];
      }
    }
  }

  lemma {:induction false} InsertDescendingSorted<T>(x: T, s: seq<T>, key: T -> seq<string>)
    requires Descending(s, key)
    ensures Descending(InsertDescending(x, s, key), key)
    decreases |s|
  {
    var r := InsertDescending(x, s, key);
    if s == [] || !PathLess(key(x), key(s[0])) {
      forall i, j | 0 <= i < j < |r|
        ensures !PathLess(key(r[i]), key(r[j]))
      {
        if i == 0 && j > 1 {
          NotBelowTransitive(key(s[0]), key(s[j - 1]), key(x));
        }
      }
    } else {
      InsertDescendingSorted(x, s[1..], key);
      var t := InsertDescending(x, s[1..], key);
      PathLessAsymmetric(key(x), key(s[0]));
      forall j | 0 <= j < |t|
        ensures !PathLess(key(s[0]), key(t[j]))
      {
        assert t[j] in multiset(s[1..]) + multiset{x};
        if t[j] != x {
          var k :| 0 <= k < |s[1..]| && s[1..][k] == t[j];
          assert s[k + 1] == t[j];
        }
      }
      ConsDescending(s[0], t, key);
    }
  }

  /** An element no later key rises above, put in front of a descending run, keeps it descending. */
  lemma ConsDescending<T>(h: T, t: seq<T>, key: T -> seq<string>)
    requires Descending(t, key)
    requires forall j :: 0 <= j < |t| ==> !PathLess(key(h), key(t[j]))
    ensures Descending([h] + t, key)
  {
    var r := [h] + t;
    forall i, j | 0 <= i < j < |r|
      ensures !PathLess(key(r[i]), key(r[j]))
    {
      assert r[j] == t[j - 1];
      if i > 0 {
        assert r[i] == t[i - 1];
      }
    }
  }

  /** `sorted` returns its input in ascending key order. */
  lemma {:induction false} SortAscendingSorted<T>(xs: seq<T>, key: T -> seq<string>)
    ensures Ascending(SortAscending(xs, key), key)
    decreases |xs|
  {
    if xs != [] {
      SortAscendingSorted(xs[1..], key);
      InsertAscendingSorted(xs[0], SortAscending(xs[1..], key), key);
    }
  }

  /** `sorted(..., reverse=True)` returns its input in descending key order. */
  lemma {:induction false} SortDescendingSorted<T>(xs: seq<T>, key: T -> seq<string>)
    ensures Descending(SortDescending(xs, key), key)
    decreases |xs|
  {
    if xs != [] {
      SortDescendingSorted(xs[1..], key);
      InsertDescendingSorted(xs[0], SortDescending(xs[1..], key), key);
    }
  }
}
