/**
 * The text handling of cheetah/machine_clean.py: the two parsers of `df -h`
 * output, the filter that removes the sudo password prompt from a command's
 * output, and the masking of the password in logged text.
 */
module MachineClean {
  import opened Wrappers
  import opened Text

  // ---------------------------------------------------------------------
  // df -h output
  // ---------------------------------------------------------------------

  /** One partition row of `df -h`, as the six leading columns. */
  datatype Partition = Partition(filesystem: string, total: string, used: string,
                                 available: string, percent: string, mountpoint: string)

  /** The record returned when no partition could be read. */
  const Unknown: Partition := Partition("?", "?", "?", "?", "?", "?")

  /** A line with at least six whitespace-separated tokens names a partition by its first six. */
  function PartitionOf(line: string): (r: Option<Partition>)
    ensures r.Some? <==> |Words(line)| >= 6
  {
    var parts := Words(line);
    if |parts| >= 6 then Some(Partition(parts[0], parts[1], parts[2], parts[3], parts[4], parts[5]))
    else None
  }

  /** The lines `_parse_df_output` passes over: the column header and blank lines. */
  predicate IsSkipped(line: string) {
    StartsWith(line, "Filesystem") || Strip(line) == []
  }

  /** What one line contributes; `skip` says whether header and blank lines are passed over first. */
  function RowOf(line: string, skip: bool): seq<Partition> {
    if skip && IsSkipped(line) then []
    else match PartitionOf(line)
      case None => []
      case Some(p) => [p]
  }

  /** The partitions read from `lines`, in line order. */
  function Rows(lines: seq<string>, skip: bool): seq<Partition>
    decreases |lines|
  {
    if lines == [] then [] else Rows(lines[..|lines| - 1], skip) + RowOf(lines[|lines| - 1], skip)
  }

  /** The placeholder stands in for an empty result. */
  function OrUnknown(rows: seq<Partition>): (r: seq<Partition>)
    ensures |r| >= 1
    ensures rows != [] ==> r == rows
    ensures rows == [] ==> r == [Unknown]
  {
    if rows == [] then [Unknown] else rows
  }

  /** The lines of the trimmed output. */
  function OutputLines(output: string): (r: seq<string>)
    ensures |r| >= 1
  {
    Split(Strip(output), "\n")
  }

  /** `_parse_df_output`: every line but headers and blanks, then the placeholder if nothing was read. */
  method ParseDfOutput(output: string) returns (partitions: seq<Partition>)
    ensures partitions == OrUnknown(Rows(OutputLines(output), true))
    ensures |partitions| >= 1
  {
    var lines := OutputLines(output);
    partitions := ParseDfLines(lines);
    if partitions == [] {
      partitions := [Unknown];
    }
  }

  /** The line loop of `_parse_df_output`. */
  method ParseDfLines(lines: seq<string>) returns (partitions: seq<Partition>)
    ensures partitions == Rows(lines, true)
  {
    partitions := [];
    for i := 0 to |lines|
      invariant partitions == Rows(lines[..i], true)
    {
      RowsStep(lines, i, true);
      var line := lines[i];
      if IsSkipped(line) {
        continue;
      }
      var parts := Words(line);
      RowOfTokens(line, true);
      if |parts| >= 6 {
        partitions := partitions + [Partition(parts[0], parts[1], parts[2], parts[3], parts[4], parts[5])];
      }
    }
    assert lines[..|lines|] == lines;
  }

  /** The parsing half of `get_disk_usage`: the first line is dropped whatever it holds. */
  method DiskUsage(output: string) returns (partitions: seq<Partition>)
    ensures partitions == OrUnknown(Rows(OutputLines(output)[1..], false))
    ensures |partitions| >= 1
  {
    var lines := OutputLines(output)[1..];
    partitions := DiskUsageLines(lines);
    if partitions == [] {
      partitions := [Unknown];
    }
  }

  /** The line loop of `get_disk_usage`. */
  method DiskUsageLines(lines: seq<string>) returns (partitions: seq<Partition>)
    ensures partitions == Rows(lines, false)
  {
    partitions := [];
    for i := 0 to |lines|
      invariant partitions == Rows(lines[..i], false)
    {
      RowsStep(lines, i, false);
      var parts := Words(lines[i]);
      RowOfTokens(lines[i], false);
      if |parts| >= 6 {
        partitions := partitions + [Partition(parts[0], parts[1], parts[2], parts[3], parts[4], parts[5])];
      }
    }
    assert lines[..|lines|] == lines;
  }

  /** A line that is not passed over contributes the partition of its first six tokens, if it has six. */
  lemma RowOfTokens(line: string, skip: bool)
    requires !(skip && IsSkipped(line))
    ensures var w := Words(line);
      RowOf(line, skip) == if |w| >= 6 then [Partition(w[0], w[1], w[2], w[3], w[4], w[5])] else []
  {
  }

  /** One more line read. */
  lemma RowsStep(lines: seq<string>, i: nat, skip: bool)
    requires i < |lines|
    ensures Rows(lines[..i + 1], skip) == Rows(lines[..i], skip) + RowOf(lines[i], skip)
  {
    assert lines[..i + 1][..i] == lines[..i];
  }

  /** Reading lines one after the other: the rows of a concatenation are the concatenated rows. */
  lemma {:induction false} RowsAppend(a: seq<string>, b: seq<string>, skip: bool)
    ensures Rows(a + b, skip) == Rows(a, skip) + Rows(b, skip)
    decreases |b|
  {
    if b != [] {
      var b' := b[..|b| - 1];
      assert (a + b)[..|a + b| - 1] == a + b';
      RowsAppend(a, b', skip);
    } else {
      assert a + b == a;
    }
  }

  /** A single line's rows. */
  lemma RowsSingle(line: string, skip: bool)
    ensures Rows([line], skip) == RowOf(line, skip)
  {
    assert [line][..0] == [];
  }

  /** The header line and blank lines give no partition in `_parse_df_output`. */
  lemma SkippedLinesGiveNothing(line: string)
    requires StartsWith(line, "Filesystem") || AllSpace(line)
    ensures Rows([line], true) == []
  {
    RowsSingle(line, true);
    if !StartsWith(line, "Filesystem") {
      BlankStrips(line);
    }
  }

  /** A line of six or more tokens gives the partition of its first six tokens, in order. */
  lemma DataLineGivesPartition(line: string, skip: bool)
    requires |Words(line)| >= 6 && !StartsWith(line, "Filesystem")
    ensures var w := Words(line);
      Rows([line], skip) == [Partition(w[0], w[1], w[2], w[3], w[4], w[5])]
  {
    RowsSingle(line, skip);
    var w := Words(line);
    if Strip(line) == [] {
      BlankNoWords(line);
    }
  }

  /** A line that trims to nothing has no words. */
  lemma BlankNoWords(line: string)
    ensures Strip(line) == [] ==> Words(line) == []
  {
    if Strip(line) == [] {
      var t := StripRight(line);
      assert AllSpace(line[|t|..]);
      assert t == StripLeft(t) || AllSpace(t);
      BlankPrefix(line, |t|);
      BlankHasNoWords(line);
    }
  }

  lemma BlankPrefix(line: string, k: nat)
    requires k <= |line| && AllSpace(line[k..]) && AllSpace(line[..k])
    ensures AllSpace(line)
  {
    forall i | 0 <= i < |line|
      ensures IsSpace(line[i])
    {
      if i < k {
        assert line[..k][i] == line[i];
      } else {
        assert line[k..][i - k] == line[i];
      }
    }
  }

  /** A line of fewer than six tokens gives nothing. */
  lemma ShortLineGivesNothing(line: string, skip: bool)
    requires |Words(line)| < 6
    ensures Rows([line], skip) == []
  {
    RowsSingle(line, skip);
  }

  /**
   * Where no line after the first starts with "Filesystem" and the first
   * one does, `get_disk_usage` reads the same partitions as `_parse_df_output`.
   */
  lemma DiskUsageAgreesWithDf(header: string, rest: seq<string>)
    requires StartsWith(header, "Filesystem")
    requires forall j :: 0 <= j < |rest| ==> !StartsWith(rest[j], "Filesystem")
    ensures Rows([header] + rest, true) == Rows(([header] + rest)[1..], false)
  {
    RowsAppend([header], rest, true);
    SkippedLinesGiveNothing(header);
    SkipIrrelevant(rest);
    assert ([header] + rest)[1..] == rest;
  }

  /** Without header lines, passing over headers and blanks changes nothing. */
  lemma {:induction false} SkipIrrelevant(lines: seq<string>)
    requires forall j :: 0 <= j < |lines| ==> !StartsWith(lines[j], "Filesystem")
    ensures Rows(lines, true) == Rows(lines, false)
    decreases |lines|
  {
    if lines != [] {
      var last := lines[|lines| - 1];
      SkipIrrelevant(lines[..|lines| - 1]);
      BlankNoWords(last);
    }
  }

  /** Output with no header line loses its first partition in `get_disk_usage` only. */
  lemma DiskUsageLosesFirstDataLine(line: string, rest: seq<string>)
    requires |Words(line)| >= 6 && !StartsWith(line, "Filesystem")
    ensures Rows([line] + rest, true) == Rows([line], true) + Rows(rest, true)
    ensures |Rows([line], true)| == 1
    ensures Rows(([line] + rest)[1..], false) == Rows(rest, false)
  {
    RowsAppend([line], rest, true);
    DataLineGivesPartition(line, true);
    assert ([line] + rest)[1..] == rest;
  }

  // ---------------------------------------------------------------------
  // The sudo prompt filter of run_command
  // ---------------------------------------------------------------------

  /** A line survives the filter when it shows neither the sudo prompt nor the password. */
  predicate Keeps(line: string, password: string) {
    !Contains(line, "[sudo]") && !Contains(line, password)
  }

  /**
   * The surviving lines, in their order: each is one of the input lines and
   * shows neither the prompt nor the password.
   */
  function KeptLines(lines: seq<string>, password: string): (r: seq<string>)
    ensures |r| <= |lines|
    ensures forall i :: 0 <= i < |r| ==> r[i] in lines && Keeps(r[i], password)
    decreases |lines|
  {
    if lines == [] then []
    else if Keeps(lines[0], password) then [lines[0]] + KeptLines(lines[1..], password)
    else KeptLines(lines[1..], password)
  }

  /**
   * The stdout that `run_command` returns: trimmed, and when the command ran
   * under sudo and printed something, with the prompt lines taken out.
   */
  function CommandStdout(raw: string, password: string, useSudo: bool): (r: string)
    ensures !useSudo ==> r == Strip(raw)
    ensures useSudo && KeptLines(Split(Strip(raw), "\n"), password) == [] ==> r == ""
    ensures useSudo ==> !Contains(r, "[sudo]")
    ensures useSudo && password != [] && Lacks(password, '\n') ==> !Contains(r, password)
  {
    var text := Strip(raw);
    if useSudo && text != [] then
      var kept := KeptLines(Split(text, "\n"), password);
      KeptHidden(kept, password);
      Join("\n", kept)
    else text
  }

  /** Kept lines joined by line breaks show neither the prompt nor a one-line password. */
  lemma KeptHidden(kept: seq<string>, password: string)
    requires forall i :: 0 <= i < |kept| ==> Keeps(kept[i], password)
    ensures !Contains(Join("\n", kept), "[sudo]")
    ensures password != [] && Lacks(password, '\n') ==> !Contains(Join("\n", kept), password)
  {
    PromptOneLine();
    LinesHide(kept, "[sudo]");
    if password != [] && Lacks(password, '\n') {
      LinesHide(kept, password);
    }
  }

  lemma PromptOneLine()
    ensures "[sudo]" != [] && Lacks("[sudo]", '\n')
  {
    var prompt := "[sudo]";
    forall i | 0 <= i < |prompt|
      ensures prompt[i] != '\n'
    {
    }
  }

  /** A one-line word found in none of the lines is not found once they are joined by line breaks. */
  lemma LinesHide(lines: seq<string>, w: string)
    requires forall i :: 0 <= i < |lines| ==> !Contains(lines[i], w)
    requires w != [] && Lacks(w, '\n')
    ensures !Contains(Join("\n", lines), w)
  {
    assert Disjoint(w, "\n") by {
      forall i, j | 0 <= i < |w| && 0 <= j < 1
        ensures w[i] != "\n"[j]
      {
        assert "\n"[j] == '\n';
      }
    }
    AbsentFromJoin("\n", lines, w);
  }

  /** Conversely, every input line that shows neither the prompt nor the password survives. */
  lemma {:induction false} KeptLinesComplete(lines: seq<string>, password: string, x: string)
    requires x in lines && Keeps(x, password)
    ensures x in KeptLines(lines, password)
    decreases |lines|
  {
    if lines[0] != x {
      KeptLinesComplete(lines[1..], password, x);
    }
  }

  /** Filtering keeps the order: the kept lines of a concatenation are the concatenated kept lines. */
  lemma {:induction false} KeptLinesAppend(a: seq<string>, b: seq<string>, password: string)
    ensures KeptLines(a + b, password) == KeptLines(a, password) + KeptLines(b, password)
    decreases |a|
  {
    if a != [] {
      assert (a + b)[1..] == a[1..] + b;
      KeptLinesAppend(a[1..], b, password);
    } else {
      assert a + b == b;
    }
  }

  /** Every line that shows neither the prompt nor the password is kept. */
  lemma {:induction false} CleanLinesKept(lines: seq<string>, password: string)
    requires forall i :: 0 <= i < |lines| ==> Keeps(lines[i], password)
    ensures KeptLines(lines, password) == lines
    decreases |lines|
  {
    if lines != [] {
      CleanLinesKept(lines[1..], password);
    }
  }

  /**
   * The returned stdout, split into lines again, is exactly the kept lines:
   * none shows the prompt or the password, and they keep their order.
   */
  lemma SudoOutputLines(raw: string, password: string)
    requires Strip(raw) != []
    requires KeptLines(Split(Strip(raw), "\n"), password) != []
    ensures Split(CommandStdout(raw, password, true), "\n") == KeptLines(Split(Strip(raw), "\n"), password)
  {
    var parts := Split(Strip(raw), "\n");
    var kept := KeptLines(parts, password);
    forall q, j | 0 <= q < |kept| && 0 <= j < |kept[q]|
      ensures kept[q][j] != "\n"[0]
    {
      KeptAreLines(parts, password, q);
      LacksOfAbsent(kept[q], '\n');
    }
    SplitJoin(kept, "\n", 0);
  }

  /** Every kept line is one of the lines it was taken from, so it has no line break. */
  lemma {:induction false} KeptAreLines(lines: seq<string>, password: string, q: nat)
    requires forall k :: 0 <= k < |lines| ==> !Contains(lines[k], "\n")
    requires q < |KeptLines(lines, password)|
    ensures !Contains(KeptLines(lines, password)[q], "\n")
    decreases |lines|
  {
    if !Keeps(lines[0], password) || q > 0 {
      KeptAreLines(lines[1..], password, if Keeps(lines[0], password) then q - 1 else q);
    }
  }

  /** An empty password is in every line, so under sudo the whole output is dropped. */
  lemma {:induction false} EmptyPasswordDropsAll(lines: seq<string>)
    ensures KeptLines(lines, "") == []
    decreases |lines|
  {
    if lines != [] {
      assert OccursAt(lines[0], "", 0);
      EmptyPasswordDropsAll(lines[1..]);
    }
  }

  // ---------------------------------------------------------------------
  // Password masking in log_command and log_output
  // ---------------------------------------------------------------------

  const Mask: string := "****"

  /**
   * What the logs show for a command or an output line: each password
   * occurrence replaced. A non-empty password with no '*' in it never shows
   * through, and text without the password is logged as it is.
   */
  function Masked(text: string, password: string): (r: string)
    ensures password != [] && Lacks(password, '*') ==> !Contains(r, password)
    ensures password != [] && !Contains(text, password) ==> r == text
  {
    if password != [] && Lacks(password, '*') then
      ReplaceIsJoinOfSplit(text, password, Mask);
      AbsentFromJoin(Mask, Split(text, password), password);
      ReplaceAll(text, password, Mask)
    else
      ReplaceAll(text, password, Mask)
  }

  /**
   * `log_output` prints nothing for an empty stream and otherwise masks each
   * of its lines on its own, so no printed line shows the password.
   */
  function MaskedLines(text: string, password: string): (r: seq<string>)
    ensures text == [] ==> r == []
    ensures text != [] ==> |r| == |Split(text, "\n")|
    ensures text != [] ==> forall i :: 0 <= i < |r| ==> r[i] == Masked(Split(text, "\n")[i], password)
    ensures password != [] && Lacks(password, '*') ==> forall i :: 0 <= i < |r| ==> !Contains(r[i], password)
  {
    if text == [] then []
    else
      var lines := Split(text, "\n");
      seq(|lines|, i requires 0 <= i < |lines| => Masked(lines[i], password))
  }

  /** A password that contains '*' can show through the mask: "aa*" masks to "a****". */
  lemma MaskLeaksStarPassword()
    ensures Masked("aa*", "a*") == "a****"
    ensures Contains(Masked("aa*", "a*"), "a*")
  {
    assert "aa*"[0..2][1] == 'a';
    assert OccursAt("aa*", "a*", 1);
    assert IndexOf("aa*", "a*") == Some(1);
    assert IndexOf("", "a*") == None;
    assert OccursAt("a****", "a*", 0);
  }
}
