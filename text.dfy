/**
 * The handful of Python `str` operations the scripts are built from:
 * `strip`, `lower`, `in`, `startswith`, `find`, `split(sep)`, `split(sep, n)`,
 * `split()`, `join` and `replace`, each with the semantics CPython gives it.
 */
module Text {
  import opened Wrappers

  /** Python's `str.isspace()` on one character. */
  predicate IsSpace(c: char) {
    c == ' ' || ('\t' <= c <= '\r') || ('\U{1C}' <= c <= '\U{1F}') || c == '\U{85}' || c == '\U{A0}'
    || c == '\U{1680}' || ('\U{2000}' <= c <= '\U{200A}') || c == '\U{2028}' || c == '\U{2029}'
    || c == '\U{202F}' || c == '\U{205F}' || c == '\U{3000}'
  }

  predicate AllSpace(s: string) {
    forall i :: 0 <= i < |s| ==> IsSpace(s[i])
  }

  predicate NoSpace(s: string) {
    forall i :: 0 <= i < |s| ==> !IsSpace(s[i])
  }

  /** A string `strip()` leaves alone: empty, or neither end is whitespace. */
  predicate IsStripped(s: string) {
    s == [] || (!IsSpace(s[0]) && !IsSpace(s[|s| - 1]))
  }

  /** Python's `str.lstrip()`: what remains is a suffix whose dropped prefix is all whitespace. */
  function StripLeft(s: string): (r: string)
    ensures |r| <= |s| && r == s[|s| - |r|..]
    ensures AllSpace(s[..|s| - |r|])
    ensures r == [] || !IsSpace(r[0])
    decreases |s|
  {
    if s != [] && IsSpace(s[0]) then
      var r := StripLeft(s[1..]);
      assert s[..|s| - |r|] == [s[0]] + s[1..][..|s| - 1 - |r|];
      r
    else s
  }

  /** Python's `str.rstrip()`: what remains is a prefix whose dropped suffix is all whitespace. */
  function StripRight(s: string): (r: string)
    ensures |r| <= |s| && r == s[..|r|]
    ensures AllSpace(s[|r|..])
    ensures r == [] || !IsSpace(r[|r| - 1])
    decreases |s|
  {
    if s != [] && IsSpace(s[|s| - 1]) then
      var r := StripRight(s[..|s| - 1]);
      assert s[|r|..] == s[..|s| - 1][|r|..] + [s[|s| - 1]];
      r
    else s
  }

  /** Python's `str.strip()`. */
  function Strip(s: string): (r: string)
    ensures |r| <= |s|
    ensures IsStripped(r)
  {
    StripLeft(StripRight(s))
  }

  function LowerChar(c: char): char {
    if 'A' <= c <= 'Z' then (c as int + 32) as char else c
  }

  /** Python's `str.lower()`, on the ASCII letters. */
  function Lower(s: string): string {
    seq(|s|, i requires 0 <= i < |s| => LowerChar(s[i]))
  }

  predicate StartsWith(s: string, p: string) {
    |p| <= |s| && s[..|p|] == p
  }

  predicate EndsWith(s: string, p: string) {
    |p| <= |s| && s[|s| - |p|..] == p
  }

  /** `p` occurs in `s` starting at index `i`. */
  predicate OccursAt(s: string, p: string, i: int) {
    0 <= i && i + |p| <= |s| && s[i..i + |p|] == p
  }

  /** Python's `s.find(p)`, with `None` for -1: the leftmost occurrence. */
  function IndexOf(s: string, p: string): (r: Option<nat>)
    ensures r.Some? ==> OccursAt(s, p, r.value)
    ensures r.Some? ==> forall j :: 0 <= j < r.value ==> !OccursAt(s, p, j)
    ensures r.None? ==> forall j :: !OccursAt(s, p, j)
    decreases |s|
  {
    if |p| > |s| then None
    else if s[..|p|] == p then Some(0)
    else
      ShiftOccurrence(s, p);
      match IndexOf(s[1..], p)
      case None => None
      case Some(k) => Some(k + 1)
  }

  lemma ShiftOccurrence(s: string, p: string)
    requires s != []
    ensures forall j {:trigger OccursAt(s, p, j)} :: 1 <= j ==> (OccursAt(s, p, j) <==> OccursAt(s[1..], p, j - 1))
  {
    forall j | 1 <= j
      ensures OccursAt(s, p, j) <==> OccursAt(s[1..], p, j - 1)
    {
      if j + |p| <= |s| {
        assert s[1..][j - 1..j - 1 + |p|] == s[j..j + |p|];
      }
    }
  }

  /** Python's `p in s`. */
  predicate Contains(s: string, p: string) {
    IndexOf(s, p).Some?
  }

  /** Python's `sep.join(parts)`. */
  function Join(sep: string, parts: seq<string>): string
    decreases |parts|
  {
    if |parts| == 0 then "" else if |parts| == 1 then parts[0] else parts[0] + sep + Join(sep, parts[1..])
  }

  /**
   * Python's `s.split(sep)` for a non-empty separator: cut at every leftmost
   * non-overlapping occurrence. Joining the pieces back gives `s`, and no
   * piece contains the separator.
   */
  function Split(s: string, sep: string): (r: seq<string>)
    requires sep != []
    ensures |r| >= 1
    ensures Join(sep, r) == s
    ensures forall k :: 0 <= k < |r| ==> !Contains(r[k], sep)
    decreases |s|
  {
    match IndexOf(s, sep)
    case None => [s]
    case Some(i) =>
      NoOccurrenceInPrefix(s, sep, i);
      var rest := Split(s[i + |sep|..], sep);
      assert s == s[..i] + sep + s[i + |sep|..];
      JoinCons(sep, s[..i], rest);
      [s[..i]] + rest
  }

  /** If `p` does not occur in `s` before index `i`, it does not occur in `s[..i]`. */
  lemma NoOccurrenceInPrefix(s: string, p: string, i: nat)
    requires p != [] && i <= |s|
    requires forall j :: 0 <= j < i ==> !OccursAt(s, p, j)
    ensures !Contains(s[..i], p)
  {
    forall j
      ensures !OccursAt(s[..i], p, j)
    {
      if 0 <= j && j + |p| <= i {
        assert s[..i][j..j + |p|] == s[j..j + |p|];
        assert !OccursAt(s, p, j);
      }
    }
  }

  /** Python's `s.split(sep, n)`: at most `n` cuts, the remainder kept whole. */
  function SplitMax(s: string, sep: string, n: nat): (r: seq<string>)
    requires sep != []
    ensures 1 <= |r| <= n + 1
    ensures Join(sep, r) == s
    decreases n
  {
    if n == 0 then [s]
    else match IndexOf(s, sep)
      case None => [s]
      case Some(i) =>
        var rest := SplitMax(s[i + |sep|..], sep, n - 1);
        assert s == s[..i] + sep + s[i + |sep|..];
        JoinCons(sep, s[..i], rest);
        [s[..i]] + rest
  }

  /** Python's `s.replace("", with)`: `with` before every character and at the end. */
  function Interleave(s: string, with: string): string
    decreases |s|
  {
    if s == [] then with else with + [s[0]] + Interleave(s[1..], with)
  }

  /** Python's `s.replace(target, with)`: every leftmost non-overlapping occurrence, one pass. */
  function ReplaceAll(s: string, target: string, with: string): string
    decreases |s|
  {
    if target == [] then Interleave(s, with)
    else match IndexOf(s, target)
      case None => s
      case Some(i) => s[..i] + with + ReplaceAll(s[i + |target|..], target, with)
  }

  /** The leading run of non-whitespace characters of `s`. */
  function TakeWord(s: string): (w: string)
    ensures |w| <= |s| && w == s[..|w|] && NoSpace(w)
    ensures |w| == |s| || IsSpace(s[|w|])
    ensures s != [] && !IsSpace(s[0]) ==> w != []
    decreases |s|
  {
    if s == [] || IsSpace(s[0]) then [] else [s[0]] + TakeWord(s[1..])
  }

  /** Python's `s.split()`: the maximal runs of non-whitespace, in order. */
  function Words(s: string): (r: seq<string>)
    ensures forall w <- r :: w != [] && NoSpace(w)
    decreases |s|
  {
    var t := StripLeft(s);
    if t == [] then []
    else
      var w := TakeWord(t);
      assert w != [];
      [w] + Words(t[|w|..])
  }

  /** Python's `s.isdigit()` on ASCII: non-empty, every character a decimal digit. */
  predicate IsDigits(s: string) {
    s != [] && forall i :: 0 <= i < |s| ==> '0' <= s[i] <= '9'
  }

  // ---------------------------------------------------------------------------
  // Properties relating the operations above
  // ---------------------------------------------------------------------------

  /**
   * Splitting a joined list gives the list back, provided some character `sep[k]`
   * occurs exactly once in the separator and in none of the parts.
   */
  lemma {:induction false} SplitJoin(parts: seq<string>, sep: string, k: nat)
    requires |parts| >= 1 && k < |sep|
    requires forall j :: 0 <= j < |sep| && j != k ==> sep[j] != sep[k]
    requires forall q, j :: 0 <= q < |parts| && 0 <= j < |parts[q]| ==> parts[q][j] != sep[k]
    ensures Split(Join(sep, parts), sep) == parts
    decreases |parts|
  {
    var s := Join(sep, parts);
    if |parts| == 1 {
      LacksSeparator(parts[0], sep, k);
    } else {
      var p := parts[0];
      var tail := Join(sep, parts[1..]);
      assert s == p + sep + tail;
      FirstSeparator(p, sep, tail, k);
      assert s[|p| + |sep|..] == tail;
      SplitJoin(parts[1..], sep, k);
    }
  }

  /** A text without the separator's unique character holds no separator. */
  lemma LacksSeparator(p: string, sep: string, k: nat)
    requires k < |sep|
    requires forall j :: 0 <= j < |p| ==> p[j] != sep[k]
    ensures IndexOf(p, sep) == None
  {
    forall j
      ensures !OccursAt(p, sep, j)
    {
      if 0 <= j && j + |sep| <= |p| {
        assert p[j..j + |sep|][k] == p[j + k];
      }
    }
  }

  /** The first separator in `p + sep + tail` is the one after `p`. */
  lemma FirstSeparator(p: string, sep: string, tail: string, k: nat)
    requires k < |sep|
    requires forall j :: 0 <= j < |sep| && j != k ==> sep[j] != sep[k]
    requires forall j :: 0 <= j < |p| ==> p[j] != sep[k]
    ensures IndexOf(p + sep + tail, sep) == Some(|p|)
  {
    var s := p + sep + tail;
    assert s[|p|..|p| + |sep|] == sep;
    assert OccursAt(s, sep, |p|);
    forall j | 0 <= j < |p|
      ensures !OccursAt(s, sep, j)
    {
      if j + k < |p| {
        assert s[j + k] == p[j + k];
      } else {
        assert s[j + k] == sep[j + k - |p|];
      }
      assert s[j..j + |sep|][k] == s[j + k];
    }
  }

  /** Python's identity `s.replace(target, with) == with.join(s.split(target))` for a non-empty `target`. */
  lemma {:induction false} ReplaceIsJoinOfSplit(s: string, target: string, with: string)
    requires target != []
    ensures ReplaceAll(s, target, with) == Join(with, Split(s, target))
    decreases |s|
  {
    match IndexOf(s, target)
    case None =>
    case Some(i) =>
      var tail := s[i + |target|..];
      ReplaceIsJoinOfSplit(tail, target, with);
      assert Split(s, target) == [s[..i]] + Split(tail, target);
  }

  /** Replacing a string that does not occur changes nothing. */
  lemma ReplaceAbsent(s: string, target: string, with: string)
    requires target != [] && !Contains(s, target)
    ensures ReplaceAll(s, target, with) == s
  {
  }

  /** `strip()` ignores whitespace padding on either side. */
  lemma {:induction false} StripPadding(ws1: string, x: string, ws2: string)
    requires AllSpace(ws1) && AllSpace(ws2)
    ensures Strip(ws1 + x + ws2) == Strip(x)
  {
    StripRightPadding(ws1 + x, ws2);
    assert ws1 + x + ws2 == (ws1 + x) + ws2;
    var y := StripRight(x);
    StripRightPrefix(ws1, x);
    StripLeftPadding(ws1, y);
  }

  lemma {:induction false} StripRightPadding(x: string, ws: string)
    requires AllSpace(ws)
    ensures StripRight(x + ws) == StripRight(x)
    decreases |ws|
  {
    if ws != [] {
      assert (x + ws)[..|x + ws| - 1] == x + ws[..|ws| - 1];
      StripRightPadding(x, ws[..|ws| - 1]);
    } else {
      assert x + ws == x;
    }
  }

  lemma {:induction false} StripRightPrefix(ws: string, x: string)
    requires AllSpace(ws)
    ensures StripRight(ws + x) == ws + StripRight(x) || (StripRight(x) == [] && AllSpace(StripRight(ws + x)))
    decreases |x|
  {
    if x != [] && IsSpace(x[|x| - 1]) {
      assert (ws + x)[..|ws + x| - 1] == ws + x[..|x| - 1];
      StripRightPrefix(ws, x[..|x| - 1]);
    } else if x == [] {
      assert ws + x == ws;
      var r := StripRight(ws);
      assert r == ws[..|r|];
    }
  }

  lemma {:induction false} StripLeftPadding(ws: string, y: string)
    requires AllSpace(ws)
    ensures StripLeft(ws + y) == StripLeft(y)
    decreases |ws|
  {
    if ws != [] {
      assert (ws + y)[1..] == ws[1..] + y;
      StripLeftPadding(ws[1..], y);
    } else {
      assert ws + y == y;
    }
  }

  /** `Join` peels its first part off. */
  lemma JoinCons(sep: string, a: string, xs: seq<string>)
    requires xs != []
    ensures Join(sep, [a] + xs) == a + sep + Join(sep, xs)
  {
    assert ([a] + xs)[1..] == xs;
  }

  /** `Join` grows at its end. */
  lemma {:induction false} JoinSnoc(sep: string, xs: seq<string>, b: string)
    requires xs != []
    ensures Join(sep, xs + [b]) == Join(sep, xs) + sep + b
    decreases |xs|
  {
    if |xs| == 1 {
      assert xs + [b] == [xs[0]] + [b];
      JoinCons(sep, xs[0], [b]);
    } else {
      assert xs + [b] == [xs[0]] + (xs[1..] + [b]);
      JoinCons(sep, xs[0], xs[1..] + [b]);
      JoinSnoc(sep, xs[1..], b);
      JoinCons(sep, xs[0], xs[1..]);
    }
  }

  predicate Lacks(s: string, c: char) {
    forall i :: 0 <= i < |s| ==> s[i] != c
  }

  /** `w` and `sep` have no character in common. */
  predicate Disjoint(w: string, sep: string) {
    forall i, j :: 0 <= i < |w| && 0 <= j < |sep| ==> w[i] != sep[j]
  }

  /**
   * In a joined string, every occurrence of the separator's first character
   * starts a separator, when no part contains that character and the
   * separator contains it only once.
   */
  lemma {:induction false} SeparatorAnchored(sep: string, parts: seq<string>, i: nat)
    requires sep != [] && forall j :: 1 <= j < |sep| ==> sep[j] != sep[0]
    requires forall q :: 0 <= q < |parts| ==> Lacks(parts[q], sep[0])
    requires i < |Join(sep, parts)|
    ensures Join(sep, parts)[i] == sep[0] ==> OccursAt(Join(sep, parts), sep, i)
    decreases |parts|
  {
    if |parts| > 1 {
      var p, tail := parts[0], Join(sep, parts[1..]);
      var s := Join(sep, parts);
      assert s == p + sep + tail;
      if i >= |p| + |sep| {
        var k := i - |p| - |sep|;
        SeparatorAnchored(sep, parts[1..], k);
        assert s[i] == tail[k];
        if k + |sep| <= |tail| {
          assert s[i..i + |sep|] == tail[k..k + |sep|];
        }
      } else if i >= |p| {
        assert s[i] == sep[i - |p|];
        assert s[|p|..|p| + |sep|] == sep;
      } else {
        assert s[i] == p[i];
      }
    } else if |parts| == 1 {
      assert Join(sep, parts)[i] == parts[0][i];
    }
  }

  /**
   * A string sharing no character with the separator occurs in a joined
   * string only inside one of the parts.
   */
  lemma {:induction false} ContainsOfJoin(sep: string, parts: seq<string>, w: string)
    requires w != [] && sep != [] && Disjoint(w, sep)
    requires Contains(Join(sep, parts), w)
    ensures exists q :: 0 <= q < |parts| && Contains(parts[q], w)
    decreases |parts|
  {
    var s := Join(sep, parts);
    var i := IndexOf(s, w).value;
    if |parts| == 1 {
      assert Contains(parts[0], w);
    } else {
      var p, tail := parts[0], Join(sep, parts[1..]);
      assert s == p + sep + tail;
      OverlapMeetsSeparator(p, sep, tail, w, i);
      if i + |w| <= |p| {
        assert p[i..i + |w|] == s[i..i + |w|];
        assert OccursAt(p, w, i);
        assert Contains(parts[0], w);
      } else if i >= |p| + |sep| {
        assert tail[i - |p| - |sep|..i - |p| - |sep| + |w|] == s[i..i + |w|];
        assert OccursAt(tail, w, i - |p| - |sep|);
        ContainsOfJoin(sep, parts[1..], w);
        var q :| 0 <= q < |parts[1..]| && Contains(parts[1..][q], w);
        assert parts[q + 1] == parts[1..][q];
      }
    }
  }

  /** An occurrence that overlaps the separator shares a character with it. */
  lemma OverlapMeetsSeparator(p: string, sep: string, tail: string, w: string, i: nat)
    requires sep != [] && w != [] && OccursAt(p + sep + tail, w, i)
    ensures i < |p| + |sep| && i + |w| > |p| ==>
              exists a, b :: 0 <= a < |w| && 0 <= b < |sep| && w[a] == sep[b]
  {
    var s := p + sep + tail;
    if i < |p| + |sep| && i + |w| > |p| {
      var j := if i < |p| then |p| else i;
      assert s[j] == sep[j - |p|];
      assert w[j - i] == s[i..i + |w|][j - i] == s[j];
      assert w[j - i] == sep[j - |p|];
    }
  }

  /** `[p.strip() for p in parts]`. */
  function StripEach(parts: seq<string>): (r: seq<string>)
    ensures |r| == |parts|
    ensures forall i :: 0 <= i < |parts| ==> r[i] == Strip(parts[i])
    decreases |parts|
  {
    if parts == [] then [] else [Strip(parts[0])] + StripEach(parts[1..])
  }

  /** `[p for p in parts if p]`: the non-empty parts, in order. */
  function DropEmpty(parts: seq<string>): (r: seq<string>)
    ensures forall i :: 0 <= i < |r| ==> r[i] != []
    ensures |r| <= |parts|
    decreases |parts|
  {
    if parts == [] then []
    else if parts[0] == [] then DropEmpty(parts[1..])
    else [parts[0]] + DropEmpty(parts[1..])
  }

  lemma {:induction false} StripEachAppend(a: seq<string>, b: seq<string>)
    ensures StripEach(a + b) == StripEach(a) + StripEach(b)
  {
  }

  lemma {:induction false} DropEmptyAppend(a: seq<string>, b: seq<string>)
    ensures DropEmpty(a + b) == DropEmpty(a) + DropEmpty(b)
    decreases |a|
  {
    if a == [] {
      assert a + b == b;
    } else {
      assert (a + b)[1..] == a[1..] + b;
      DropEmptyAppend(a[1..], b);
    }
  }

  /** `DropEmpty` keeps a list none of whose parts is empty. */
  lemma {:induction false} DropEmptyNoEmpty(parts: seq<string>)
    requires forall i :: 0 <= i < |parts| ==> parts[i] != []
    ensures DropEmpty(parts) == parts
    decreases |parts|
  {
    if parts != [] {
      DropEmptyNoEmpty(parts[1..]);
    }
  }

  /** A piece of a piece is a piece. */
  lemma ContainsTrans(a: string, b: string, c: string)
    requires Contains(a, b) && Contains(b, c)
    ensures Contains(a, c)
  {
    var i, j := IndexOf(a, b).value, IndexOf(b, c).value;
    assert a[i + j..i + j + |c|] == a[i..i + |b|][j..j + |c|];
    assert OccursAt(a, c, i + j);
  }

  /** Every part of a joined string is a piece of it. */
  lemma {:induction false} JoinContainsPart(sep: string, parts: seq<string>, q: nat)
    requires q < |parts|
    ensures Contains(Join(sep, parts), parts[q])
    decreases |parts|
  {
    var s := Join(sep, parts);
    if |parts| == 1 {
      assert OccursAt(s, parts[0], 0);
    } else {
      var tail := Join(sep, parts[1..]);
      assert s == parts[0] + sep + tail;
      if q == 0 {
        assert s[..|parts[0]|] == parts[0];
        assert OccursAt(s, parts[0], 0);
      } else {
        assert s[|parts[0]| + |sep|..] == tail;
        assert OccursAt(s, tail, |parts[0]| + |sep|);
        JoinContainsPart(sep, parts[1..], q - 1);
        assert parts[1..][q - 1] == parts[q];
        ContainsTrans(s, tail, parts[q]);
      }
    }
  }

  /** What `strip()` returns is a piece of its argument. */
  lemma ContainsStrip(s: string)
    ensures Contains(s, Strip(s))
  {
    var k := |StripRight(s)|;
    var m := |Strip(s)|;
    assert Strip(s) == s[..k][k - m..] == s[k - m..k];
    assert OccursAt(s, Strip(s), k - m);
  }

  /** Trimming keeps the empty edge pieces of a split row. */
  lemma StripEachFramed(cells: seq<string>)
    ensures StripEach([""] + cells + [""]) == [""] + StripEach(cells) + [""]
  {
    StripEachAppend([""] + cells, [""]);
    StripEachAppend([""], cells);
    assert StripEach([""]) == [""];
  }

  /** Dropping empty pieces removes the edge pieces and keeps non-empty cells. */
  lemma DropEmptyFramed(cells: seq<string>)
    requires forall q :: 0 <= q < |cells| ==> cells[q] != []
    ensures DropEmpty([""] + cells + [""]) == cells
  {
    DropEmptyAppend([""] + cells, [""]);
    DropEmptyAppend([""], cells);
    assert DropEmpty([""]) == [];
    DropEmptyNoEmpty(cells);
  }

  /** A string lacking one of the characters of `p` does not contain `p`. */
  lemma AbsentByChar(s: string, p: string, k: nat)
    requires k < |p| && Lacks(s, p[k])
    ensures !Contains(s, p)
  {
    forall j ensures !OccursAt(s, p, j) {
      if 0 <= j && j + |p| <= |s| {
        assert s[j..j + |p|][k] == s[j + k];
      }
    }
  }

  /** `strip()` leaves a stripped string alone, so stripping twice is stripping once. */
  lemma StrippedFixed(s: string)
    requires IsStripped(s)
    ensures Strip(s) == s
  {
  }

  /** A word already in lower case that occurs in `s` also occurs in `Lower(s)`. */
  lemma LowerKeepsWord(s: string, p: string)
    requires Lower(p) == p && Contains(s, p)
    ensures Contains(Lower(s), p)
  {
    var i := IndexOf(s, p).value;
    assert Lower(s)[i..i + |p|] == Lower(s[i..i + |p|]);
    assert OccursAt(Lower(s), p, i);
  }

  /** A blank string strips to nothing from either side. */
  lemma {:induction false} BlankStrips(s: string)
    requires AllSpace(s)
    ensures StripLeft(s) == [] && StripRight(s) == [] && Strip(s) == []
    decreases |s|
  {
    if s != [] {
      BlankStrips(s[1..]);
      BlankStrips(s[..|s| - 1]);
    }
  }

  /** A blank string has no words. */
  lemma BlankHasNoWords(s: string)
    requires AllSpace(s)
    ensures Words(s) == []
  {
    BlankStrips(s);
  }

  /** A string missing the one-character string `[c]` lacks `c`. */
  lemma LacksOfAbsent(s: string, c: char)
    requires !Contains(s, [c])
    ensures Lacks(s, c)
  {
    forall i | 0 <= i < |s|
      ensures s[i] != c
    {
      assert !OccursAt(s, [c], i);
      assert s[i..i + 1] == [s[i]];
    }
  }

  /**
   * A string sharing no character with the separator, and found in none of
   * the parts, is not found in the joined string either.
   */
  lemma {:induction false} AbsentFromJoin(sep: string, parts: seq<string>, w: string)
    requires w != [] && sep != [] && Disjoint(w, sep)
    requires forall q :: 0 <= q < |parts| ==> !Contains(parts[q], w)
    ensures !Contains(Join(sep, parts), w)
    decreases |parts|
  {
    if |parts| > 1 {
      var p, tail := parts[0], Join(sep, parts[1..]);
      AbsentFromJoin(sep, parts[1..], w);
      var s := Join(sep, parts);
      assert s == p + sep + tail;
      forall i
        ensures !OccursAt(s, w, i)
      {
        if 0 <= i && i + |w| <= |s| {
          if i + |w| <= |p| {
            assert s[i..i + |w|] == p[i..i + |w|];
            assert !OccursAt(p, w, i);
          } else if i >= |p| + |sep| {
            var k := i - |p| - |sep|;
            assert s[i..i + |w|] == tail[k..k + |w|];
            assert !OccursAt(tail, w, k);
          } else {
            var j := if i < |p| then |p| else i;
            assert s[j] == sep[j - |p|];
            assert s[i..i + |w|][j - i] == s[j];
            assert w[j - i] != sep[j - |p|];
          }
        }
      }
    }
  }
}
