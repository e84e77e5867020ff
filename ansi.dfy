/**
 * `strip_ansi` of webborrow/app.py: one left-to-right pass of `re.sub` with the
 * pattern `ESC [ [0-9;]* m`, deleting every colour code it meets.
 */
module Ansi {
  import opened Wrappers
  import opened Text

  const Esc: char := '\U{1B}'

  predicate IsParamChar(c: char) {
    '0' <= c <= '9' || c == ';'
  }

  /** `t` is one whole colour code: ESC, `[`, digits or semicolons, `m`. */
  predicate IsSgr(t: string) {
    |t| >= 3 && t[0] == Esc && t[1] == '[' && t[|t| - 1] == 'm'
    && forall i :: 2 <= i < |t| - 1 ==> IsParamChar(t[i])
  }

  /** Length of the leading run of parameter characters. */
  function ParamRun(s: string): (n: nat)
    ensures n <= |s|
    ensures forall i :: 0 <= i < n ==> IsParamChar(s[i])
    ensures n == |s| || !IsParamChar(s[n])
    decreases |s|
  {
    if s != [] && IsParamChar(s[0]) then 1 + ParamRun(s[1..]) else 0
  }

  /**
   * Where the regular expression matches at the start of `s`: the length of the
   * colour code there, which is the only prefix of `s` that is one.
   */
  function SgrAt(s: string): (r: Option<nat>)
    ensures r.Some? ==> r.value <= |s| && IsSgr(s[..r.value])
  {
    if |s| >= 2 && s[0] == Esc && s[1] == '[' then
      var n := ParamRun(s[2..]);
      if 2 + n < |s| && s[2 + n] == 'm' then
        assert forall i :: 2 <= i < 2 + n ==> s[i] == s[2..][i - 2];
        Some(3 + n)
      else
        None
    else
      None
  }

  /** Whenever a colour code starts `s`, `SgrAt` finds exactly that one. */
  lemma SgrAtFinds(s: string, m: nat)
    requires m <= |s| && IsSgr(s[..m])
    ensures SgrAt(s) == Some(m)
  {
    SgrShape(s, m);
    var n := ParamRun(s[2..]);
    if 2 + n < |s| && s[2 + n] == 'm' {
      SgrUnique(s, 3 + n);
    } else {
      NoSgrPrefix(s, n);
    }
  }

  /** A colour code ends at the first character after `ESC [` that is not a parameter. */
  lemma SgrShape(s: string, m: nat)
    requires m <= |s|
    ensures IsSgr(s[..m]) ==> m >= 3 && s[0] == Esc && s[1] == '[' && s[m - 1] == 'm'
    ensures IsSgr(s[..m]) ==> forall i :: 2 <= i < m - 1 ==> IsParamChar(s[i])
  {
    assert forall i :: 0 <= i < m ==> s[..m][i] == s[i];
  }

  lemma SgrUnique(s: string, n: nat)
    requires n <= |s| && IsSgr(s[..n])
    ensures forall m :: 0 <= m <= |s| && IsSgr(s[..m]) ==> m == n
  {
    SgrShape(s, n);
    forall m | 0 <= m <= |s| && IsSgr(s[..m])
      ensures m == n
    {
      SgrShape(s, m);
    }
  }

  lemma NoSgrPrefix(s: string, n: nat)
    requires |s| >= 2 && s[0] == Esc && s[1] == '['
    requires n == ParamRun(s[2..])
    requires !(2 + n < |s| && s[2 + n] == 'm')
    ensures forall m :: 0 <= m <= |s| ==> !IsSgr(s[..m])
  {
    assert forall i :: 2 <= i < 2 + n ==> IsParamChar(s[i]) by {
      forall i | 2 <= i < 2 + n
        ensures IsParamChar(s[i])
      {
        assert s[2..][i - 2] == s[i];
      }
    }
    assert 2 + n == |s| || !IsParamChar(s[2 + n]) by {
      if 2 + n < |s| {
        assert s[2..][n] == s[2 + n];
      }
    }
    forall m | 0 <= m <= |s|
      ensures !IsSgr(s[..m])
    {
      SgrShape(s, m);
    }
  }

  /** `strip_ansi`: delete each colour code met while scanning left to right. */
  function StripAnsi(s: string): (r: string)
    ensures |r| <= |s|
    ensures NoEsc(s) ==> r == s
    decreases |s|
  {
    if s == [] then []
    else match SgrAt(s)
      case Some(n) => StripAnsi(s[n..])
      case None =>
        assert s == [s[0]] + s[1..];
        [s[0]] + StripAnsi(s[1..])
  }

  /** No ESC character: nothing for the pattern to match. */
  predicate NoEsc(s: string) {
    forall i :: 0 <= i < |s| ==> s[i] != Esc
  }

  /** The characters a colour code is made of. */
  predicate InSgrAlphabet(c: char) {
    c == Esc || c == '[' || c == 'm' || IsParamChar(c)
  }

  /** The characters no colour code can contain, in order. */
  function Visible(s: string): string
    decreases |s|
  {
    if s == [] then []
    else if InSgrAlphabet(s[0]) then Visible(s[1..])
    else [s[0]] + Visible(s[1..])
  }

  lemma {:induction false} VisibleAppend(a: string, b: string)
    ensures Visible(a + b) == Visible(a) + Visible(b)
    decreases |a|
  {
    if a != [] {
      assert (a + b)[1..] == a[1..] + b;
      VisibleAppend(a[1..], b);
    } else {
      assert a + b == b;
    }
  }

  lemma {:induction false} VisibleOfSgr(t: string)
    requires forall i :: 0 <= i < |t| ==> InSgrAlphabet(t[i])
    ensures Visible(t) == []
    decreases |t|
  {
    if t != [] {
      assert forall i :: 0 <= i < |t| - 1 ==> t[1..][i] == t[i + 1];
      VisibleOfSgr(t[1..]);
    }
  }

  /** Every character that cannot belong to a colour code survives, in its order. */
  lemma {:induction false} StripAnsiKeepsVisible(s: string)
    ensures Visible(StripAnsi(s)) == Visible(s)
    decreases |s|
  {
    if s != [] {
      match SgrAt(s)
      case Some(n) =>
        calc {
          Visible(StripAnsi(s));
          Visible(StripAnsi(s[n..]));
          { StripAnsiKeepsVisible(s[n..]); }
          Visible(s[n..]);
          { VisibleOfSgr(s[..n]); }
          Visible(s[..n]) + Visible(s[n..]);
          { VisibleAppend(s[..n], s[n..]); assert s == s[..n] + s[n..]; }
          Visible(s);
        }
      case None =>
        calc {
          Visible(StripAnsi(s));
          { StripAnsiUnmatched(s); }
          Visible([s[0]] + StripAnsi(s[1..]));
          { VisibleAppend([s[0]], StripAnsi(s[1..])); }
          Visible([s[0]]) + Visible(StripAnsi(s[1..]));
          { StripAnsiKeepsVisible(s[1..]); }
          Visible([s[0]]) + Visible(s[1..]);
          { VisibleAppend([s[0]], s[1..]); assert s == [s[0]] + s[1..]; }
          Visible(s);
        }
    }
  }

  /** A leading colour code is deleted and scanning resumes right after it. */
  lemma StripAnsiDropsSgr(t: string, s: string)
    requires IsSgr(t)
    ensures StripAnsi(t + s) == StripAnsi(s)
  {
    assert (t + s)[..|t|] == t;
    assert (t + s)[|t|..] == s;
    SgrAtFinds(t + s, |t|);
  }

  /** Text without ESC passes through in front of whatever follows. */
  lemma {:induction false} StripAnsiPrefix(w: string, s: string)
    requires NoEsc(w)
    ensures StripAnsi(w + s) == w + StripAnsi(s)
    decreases |w|
  {
    if w != [] {
      var c, tail := w[0], w[1..];
      calc {
        StripAnsi(w + s);
        { assert w + s == [c] + (tail + s); }
        StripAnsi([c] + (tail + s));
        { StripAnsiCons(c, tail + s); }
        [c] + StripAnsi(tail + s);
        { StripAnsiPrefix(tail, s); }
        [c] + (tail + StripAnsi(s));
        { assert w == [c] + tail; }
        w + StripAnsi(s);
      }
    } else {
      assert w + s == s;
    }
  }

  /** A character other than ESC in front is kept in front. */
  lemma StripAnsiCons(c: char, t: string)
    requires c != Esc
    ensures StripAnsi([c] + t) == [c] + StripAnsi(t)
  {
    var ct := [c] + t;
    assert ct[1..] == t;
    StripAnsiPlain(ct);
  }

  /** A first character other than ESC is kept and scanning moves on by one. */
  lemma StripAnsiPlain(s: string)
    requires s != [] && s[0] != Esc
    ensures StripAnsi(s) == [s[0]] + StripAnsi(s[1..])
  {
    assert SgrAt(s).None?;
  }

  /** Coloured text `code + w + reset` comes back as the bare text `w`. */
  lemma StripAnsiColoured(code: string, w: string, reset: string)
    requires IsSgr(code) && IsSgr(reset) && NoEsc(w)
    ensures StripAnsi(code + w + reset) == w
  {
    assert code + w + reset == code + (w + reset);
    StripAnsiDropsSgr(code, w + reset);
    StripAnsiPrefix(w, reset);
    assert reset + [] == reset;
    StripAnsiDropsSgr(reset, []);
  }

  /**
   * One pass is not a fixed point: an ESC that does not start a colour code
   * is kept, and it can meet the `[`, `m` left behind by a deleted code.
   */
  lemma StripAnsiSinglePass()
    ensures StripAnsi([Esc, Esc, '[', 'm', '[', 'm']) == [Esc, '[', 'm']
    ensures IsSgr(StripAnsi([Esc, Esc, '[', 'm', '[', 'm']))
  {
    var code, rest := [Esc, '[', 'm'], ['[', 'm'];
    var s := [Esc] + (code + rest);
    assert s == [Esc, Esc, '[', 'm', '[', 'm'];
    assert s[1] != '[';
    StripAnsiUnmatched(s);
    assert s[1..] == code + rest;
    StripAnsiDropsSgr(code, rest);
    assert NoEsc(rest);
    assert [Esc] + rest == code;
    assert IsSgr(code);
  }

  /** Where no colour code starts, the first character is kept and scanning moves on by one. */
  lemma StripAnsiUnmatched(s: string)
    requires s != [] && SgrAt(s).None?
    ensures StripAnsi(s) == [s[0]] + StripAnsi(s[1..])
  {
  }
}
