/**
 * diary/app.py, entries: the front-matter text `create_entry` writes, the
 * parse `get_all_entries` applies to every entry file, and the
 * year/month/day directory walk that collects the entries. File contents
 * and the directory tree are values; dates and ids are parameters.
 */
module DiaryEntries {
  import opened Wrappers
  import opened Text
  import opened Order
  import opened Paths

  const Fence := "---"
  const DateKey := "date:"

  /** The file `create_entry` writes for an entry dated `date` with text `content`. */
  function EntryText(date: string, content: string): (r: string)
    ensures StartsWith(r, Fence)
    ensures |r| == |date| + |content| + 17
    ensures r[|r| - |content| - 1..] == content + "\n"
  {
    Fence + "\ndate: " + date + "\n" + Fence + "\n\n" + content + "\n"
  }

  /** What the parse of one file yields: its date, if any, and its content. */
  datatype Parsed = Parsed(date: Option<string>, content: string)

  /** The value of a metadata line starting with `date:`: every `date:` removed, then stripped. */
  function DateLine(line: string): Option<string> {
    if StartsWith(line, DateKey) then Some(Strip(ReplaceAll(line, DateKey, ""))) else None
  }

  /** The date the metadata loop ends with: that of the last `date:` line. */
  function LastDate(lines: seq<string>): (r: Option<string>)
    ensures r.Some? ==> exists k :: 0 <= k < |lines| && DateLine(lines[k]) == r
    decreases |lines|
  {
    if lines == [] then None
    else
      var last := lines[|lines| - 1];
      if DateLine(last).Some? then
        assert DateLine(lines[|lines| - 1]) == DateLine(last);
        DateLine(last)
      else
        var r := LastDate(lines[..|lines| - 1]);
        if r.Some? then
          var k :| 0 <= k < |lines| - 1 && DateLine(lines[..|lines| - 1][k]) == r;
          assert lines[k] == lines[..|lines| - 1][k];
          r
        else r
  }

  /**
   * The parse in `get_all_entries`: text opening with `---` that splits in
   * three on `---` gives the metadata's date and the stripped rest; any
   * other text is its own content, without a date.
   */
  function EntryOf(text: string): (r: Parsed)
    ensures !StartsWith(text, Fence) ==> r == Parsed(None, text)
    ensures r.date.Some? ==> StartsWith(text, Fence)
    ensures r.content == text || IsStripped(r.content)
    ensures Contains(text, r.content)
  {
    if StartsWith(text, Fence) then
      var parts := SplitMax(text, Fence, 2);
      if |parts| >= 3 then
        JoinContainsPart(Fence, parts, 2);
        ContainsStrip(parts[2]);
        ContainsTrans(text, parts[2], Strip(parts[2]));
        Parsed(LastDate(Split(Strip(parts[1]), "\n")), Strip(parts[2]))
      else
        assert OccursAt(text, text, 0);
        Parsed(None, text)
    else
      assert OccursAt(text, text, 0);
      Parsed(None, text)
  }

  /** The metadata loop: every line starting with `date:` overwrites the date. */
  method MetadataDate(metadata: string) returns (date: Option<string>)
    ensures date == LastDate(Split(metadata, "\n"))
  {
    var lines := Split(metadata, "\n");
    date := DateOfLines(lines);
  }

  /** The loop over the metadata lines. */
  method DateOfLines(lines: seq<string>) returns (date: Option<string>)
    ensures date == LastDate(lines)
  {
    date := None;
    for i := 0 to |lines|
      invariant date == LastDate(lines[..i])
    {
      LastDateStep(lines, i);
      var line := lines[i];
      if StartsWith(line, DateKey) {
        date := Some(Strip(ReplaceAll(line, DateKey, "")));
      }
    }
    assert lines[..|lines|] == lines;
  }

  /** The parse of one entry file in `get_all_entries`. */
  method ParseEntry(text: string) returns (date: Option<string>, content: string)
    ensures Parsed(date, content) == EntryOf(text)
  {
    date := None;
    content := text;
    if StartsWith(text, Fence) {
      var parts := SplitMax(text, Fence, 2);
      if |parts| >= 3 {
        var metadata := Strip(parts[1]);
        content := Strip(parts[2]);
        date := MetadataDate(metadata);
      }
    }
  }

  lemma LastDateStep(lines: seq<string>, i: nat)
    requires i < |lines|
    ensures LastDate(lines[..i + 1]) == if DateLine(lines[i]).Some? then DateLine(lines[i]) else LastDate(lines[..i])
  {
    assert lines[..i + 1][..i] == lines[..i];
    assert lines[..i + 1][i] == lines[i];
  }

  /** The last `date:` line decides the date; lines after it without `date:` do not matter. */
  lemma {:induction false} LastDateIsLast(lines: seq<string>, k: nat)
    requires k < |lines| && DateLine(lines[k]).Some?
    requires forall j :: k < j < |lines| ==> DateLine(lines[j]).None?
    ensures LastDate(lines) == DateLine(lines[k])
    decreases |lines|
  {
    if k < |lines| - 1 {
      var init := lines[..|lines| - 1];
      assert init[k] == lines[k];
      forall j | k < j < |init|
        ensures DateLine(init[j]).None?
      {
        assert init[j] == lines[j];
      }
      LastDateIsLast(init, k);
    }
  }

  /** Without a `date:` line there is no date. */
  lemma {:induction false} NoDateLine(lines: seq<string>)
    requires forall j :: 0 <= j < |lines| ==> DateLine(lines[j]).None?
    ensures LastDate(lines) == None
    decreases |lines|
  {
    if lines != [] {
      var init := lines[..|lines| - 1];
      forall j | 0 <= j < |init|
        ensures DateLine(init[j]).None?
      {
        assert init[j] == lines[j];
      }
      NoDateLine(init);
    }
  }

  // ---------------------------------------------------------------------
  // The round trip of the front matter
  // ---------------------------------------------------------------------

  /** A `---` in `a + d + b`, where `a` and `b` have no dash, lies inside `d`. */
  lemma DashesInside(a: string, d: string, b: string)
    requires Lacks(a, '-') && Lacks(b, '-') && !Contains(d, Fence)
    ensures !Contains(a + d + b, Fence)
  {
    var s := a + d + b;
    forall j | 0 <= j && j + 3 <= |s|
      ensures !OccursAt(s, Fence, j)
    {
      if j < |a| {
        assert s[j] == a[j];
        assert a[j] != Fence[0];
        assert s[j..j + 3][0] == s[j];
      } else if j + 3 > |a| + |d| {
        var k := j + 2 - |a| - |d|;
        assert s[j + 2] == b[k];
        assert b[k] != Fence[2];
        assert s[j..j + 3][2] == s[j + 2];
      } else {
        assert s[j..j + 3] == d[j - |a|..j - |a| + 3];
        assert !OccursAt(d, Fence, j - |a|);
      }
    }
  }

  /** The first `---` after a text that ends in a non-dash and holds no `---` is right after it. */
  lemma FirstFence(m: string, rest: string)
    requires m != [] && m[|m| - 1] != '-' && !Contains(m, Fence)
    ensures IndexOf(m + Fence + rest, Fence) == Some(|m|)
  {
    var s := m + Fence + rest;
    assert s[|m|..|m| + 3] == Fence;
    assert OccursAt(s, Fence, |m|);
    forall j | 0 <= j < |m|
      ensures !OccursAt(s, Fence, j)
    {
      if j + 3 <= |m| {
        assert s[j..j + 3] == m[j..j + 3];
        assert !OccursAt(m, Fence, j);
      } else if j + 3 <= |s| {
        assert s[j..j + 3][|m| - 1 - j] == m[|m| - 1];
      }
    }
  }

  /** A text opening with a fence loses it as an empty first part. */
  lemma SplitAtOpeningFence(tail: string, n: nat)
    requires n >= 1
    ensures SplitMax(Fence + tail, Fence, n) == [""] + SplitMax(tail, Fence, n - 1)
  {
    var text := Fence + tail;
    assert text[..3] == Fence;
    assert OccursAt(text, Fence, 0);
    assert text[3..] == tail;
  }

  /** One cut at the first fence after `m`. */
  lemma SplitAtClosingFence(m: string, t: string)
    requires m != [] && m[|m| - 1] != '-' && !Contains(m, Fence)
    ensures SplitMax(m + Fence + t, Fence, 1) == [m, t]
  {
    var tail := m + Fence + t;
    FirstFence(m, t);
    assert tail[..|m|] == m;
    assert tail[|m| + 3..] == t;
  }

  /** Text between two fences, with no fence of its own, is the middle part of the split. */
  lemma SplitAtFences(m: string, t: string)
    requires m != [] && m[|m| - 1] != '-' && !Contains(m, Fence)
    ensures SplitMax(Fence + m + Fence + t, Fence, 2) == ["", m, t]
  {
    assert Fence + m + Fence + t == Fence + (m + Fence + t);
    SplitAtOpeningFence(m + Fence + t, 2);
    SplitAtClosingFence(m, t);
  }

  /** An entry file splits on `---` into nothing, the metadata block and the body. */
  lemma EntryParts(date: string, content: string)
    requires Lacks(date, '\n') && !Contains(date, Fence)
    ensures SplitMax(EntryText(date, content), Fence, 2)
      == ["", "\ndate: " + date + "\n", "\n\n" + content + "\n"]
  {
    var m := "\ndate: " + date + "\n";
    var t := "\n\n" + content + "\n";
    assert EntryText(date, content) == Fence + m + Fence + t;
    DashesInside("\ndate: ", date, "\n");
    SplitAtFences(m, t);
  }

  /** A text without a newline is a single line. */
  lemma OneLine(line: string)
    requires Lacks(line, '\n')
    ensures Split(line, "\n") == [line]
  {
    AbsentByChar(line, "\n", 0);
  }

  /** The metadata block strips to its `date:` line. */
  lemma StripMetadata(date: string)
    requires date != [] && IsStripped(date)
    ensures Strip("\ndate: " + date + "\n") == "date: " + date
  {
    var line := "date: " + date;
    assert "\ndate: " + date + "\n" == "\n" + line + "\n";
    assert line[0] == 'd' && line[|line| - 1] == date[|date| - 1];
    StripNewlines(line);
  }

  /** A stripped line between two newlines strips back to itself. */
  lemma StripNewlines(line: string)
    requires IsStripped(line)
    ensures Strip("\n" + line + "\n") == line
  {
    assert AllSpace("\n");
    StripPadding("\n", line, "\n");
    StrippedFixed(line);
  }

  lemma DateLineLacksNewline(date: string)
    requires Lacks(date, '\n')
    ensures Lacks("date: " + date, '\n')
  {
    var line := "date: " + date;
    forall i | 0 <= i < |line|
      ensures line[i] != '\n'
    {
      if i >= 6 {
        assert line[i] == date[i - 6];
      }
    }
  }

  /** The metadata block strips to its one line. */
  lemma MetadataLine(date: string)
    requires date != [] && IsStripped(date) && Lacks(date, '\n')
    ensures Split(Strip("\ndate: " + date + "\n"), "\n") == ["date: " + date]
  {
    StripMetadata(date);
    DateLineLacksNewline(date);
    OneLine("date: " + date);
  }

  /** A space before a text without `date:` adds no `date:`. */
  lemma NoKeyAfterSpace(date: string)
    requires !Contains(date, DateKey)
    ensures !Contains(" " + date, DateKey)
  {
    var s := " " + date;
    ShiftOccurrence(s, DateKey);
    assert s[1..] == date;
    forall j | 0 <= j
      ensures !OccursAt(s, DateKey, j)
    {
      if j == 0 && |DateKey| <= |s| {
        assert s[0..|DateKey|][0] == ' ';
      } else if j >= 1 {
        assert !OccursAt(date, DateKey, j - 1);
      }
    }
  }

  /** The line `date: D` gives back `D`. */
  lemma DateLineValue(date: string)
    requires IsStripped(date) && !Contains(date, DateKey)
    ensures DateLine("date: " + date) == Some(date)
  {
    var line := "date: " + date;
    assert line[..5] == DateKey;
    assert OccursAt(line, DateKey, 0);
    assert line[5..] == " " + date;
    NoKeyAfterSpace(date);
    ReplaceAbsent(" " + date, DateKey, "");
    assert ReplaceAll(line, DateKey, "") == " " + date;
    StripPadding(" ", date, "");
    assert " " + date + "" == " " + date;
    StrippedFixed(date);
  }

  /**
   * The round trip of `create_entry` and `get_all_entries`: the file written
   * for a date and a content parses back to that date and the stripped
   * content, for a date that is stripped, non-empty and holds no newline,
   * no `---` and no `date:` (as the timestamps `create_entry` writes do).
   */
  lemma EntryRoundTrip(date: string, content: string)
    requires date != [] && IsStripped(date) && Lacks(date, '\n')
    requires !Contains(date, Fence) && !Contains(date, DateKey)
    ensures EntryOf(EntryText(date, content)) == Parsed(Some(date), Strip(content))
  {
    var text := EntryText(date, content);
    var m := "\ndate: " + date + "\n";
    var t := "\n\n" + content + "\n";
    assert text[..3] == Fence;
    EntryParts(date, content);
    EntryOfParts(text, m, t);
    MetadataLine(date);
    LastDateSingle("date: " + date);
    DateLineValue(date);
    StripBody(content);
  }

  /** The blank lines around the content are stripped away. */
  lemma StripBody(content: string)
    ensures Strip("\n\n" + content + "\n") == Strip(content)
  {
    assert AllSpace("\n\n") by {
      assert IsSpace('\n');
    }
    assert AllSpace("\n") by {
      assert IsSpace('\n');
    }
    StripPadding("\n\n", content, "\n");
  }

  /** A text that opens with a fence and splits in three parses its two later parts. */
  lemma EntryOfParts(text: string, m: string, t: string)
    requires StartsWith(text, Fence) && SplitMax(text, Fence, 2) == ["", m, t]
    ensures EntryOf(text) == Parsed(LastDate(Split(Strip(m), "\n")), Strip(t))
  {
  }

  lemma LastDateSingle(line: string)
    ensures LastDate([line]) == DateLine(line)
  {
    assert [line][..0] == [];
  }

  /** A file with an opening `---` but no closing one is kept verbatim, without a date. */
  lemma UnclosedFrontMatter(rest: string)
    requires !Contains(rest, Fence)
    ensures EntryOf(Fence + rest) == Parsed(None, Fence + rest)
  {
    SplitAtOpeningFence(rest, 2);
    assert SplitMax(rest, Fence, 1) == [rest];
  }

  // ---------------------------------------------------------------------
  // The year/month/day walk of get_all_entries
  // ---------------------------------------------------------------------

  /** A node of the diary repository: a file with its text, or a directory. */
  datatype Node = File(name: string, text: string) | Dir(name: string, children: seq<Node>)

  /** One parsed entry, with the directories it was found in. */
  datatype Entry = Entry(id: string, date: Option<string>, content: string, year: string, month: string, day: string)

  /** A day directory with its entries. */
  datatype Day = Day(year: string, month: string, day: string, entries: seq<Entry>)

  function NameKey(n: Node): seq<string> {
    [n.name]
  }

  /** `sorted(..., reverse=True)` over the nodes of one directory. */
  function Newest(nodes: seq<Node>): (r: seq<Node>)
    ensures multiset(r) == multiset(nodes)
  {
    SortDescending(nodes, NameKey)
  }

  predicate IsNumberDir(n: Node) {
    n.Dir? && IsDigits(n.name)
  }

  predicate IsDayDir(n: Node) {
    n.Dir? && Contains(n.name, "-")
  }

  /** What `glob('*.md')` finds among a day directory's files. */
  predicate IsEntryFile(n: Node) {
    n.File? && EndsWith(n.name, ".md")
  }

  function EntryFiles(nodes: seq<Node>): (r: seq<Node>)
    ensures forall i :: 0 <= i < |r| ==> IsEntryFile(r[i])
    decreases |nodes|
  {
    if nodes == [] then []
    else
      var last := nodes[|nodes| - 1];
      EntryFiles(nodes[..|nodes| - 1]) + (if IsEntryFile(last) then [last] else [])
  }

  /** The entry of one file: its stem as id, and its parse. */
  function EntryFrom(file: Node, year: string, month: string, day: string): Entry
    requires file.File?
  {
    var p := EntryOf(file.text);
    Entry(Stem(file.name), p.date, p.content, year, month, day)
  }

  /** A day directory's entries are filed under that day. */
  predicate FiledUnder(es: seq<Entry>, year: string, month: string, day: string) {
    forall i :: 0 <= i < |es| ==> es[i].year == year && es[i].month == month && es[i].day == day
  }

  function EntriesFrom(files: seq<Node>, year: string, month: string, day: string): (r: seq<Entry>)
    requires forall i :: 0 <= i < |files| ==> files[i].File?
    ensures |r| == |files| && FiledUnder(r, year, month, day)
    decreases |files|
  {
    if files == [] then []
    else
      var last := files[|files| - 1];
      EntriesFrom(files[..|files| - 1], year, month, day) + [EntryFrom(last, year, month, day)]
  }

  /** The `.md` files of a day directory, newest name first. */
  function DayFiles(dayDir: Node): (r: seq<Node>)
    requires dayDir.Dir?
    ensures forall i :: 0 <= i < |r| ==> IsEntryFile(r[i])
  {
    var r := Newest(EntryFiles(dayDir.children));
    assert forall i :: 0 <= i < |r| ==> r[i] in multiset(EntryFiles(dayDir.children));
    r
  }

  function DayEntries(year: string, month: string, dayDir: Node): seq<Entry>
    requires dayDir.Dir?
  {
    EntriesFrom(DayFiles(dayDir), year, month, dayDir.name)
  }

  /** A day as `get_all_entries` lists it: filed where it was found, never empty. */
  predicate Listed(d: Day) {
    && IsDigits(d.year) && IsDigits(d.month) && Contains(d.day, "-")
    && d.entries != [] && FiledUnder(d.entries, d.year, d.month, d.day)
  }

  /** The day, if its directory holds an entry file. */
  function DayOf(year: string, month: string, dayDir: Node): (r: seq<Day>)
    requires dayDir.Dir?
    ensures |r| <= 1
    ensures forall i :: 0 <= i < |r| ==> r[i].year == year && r[i].month == month && r[i].day == dayDir.name
    ensures forall i :: 0 <= i < |r| ==> r[i].entries != [] && FiledUnder(r[i].entries, year, month, dayDir.name)
  {
    var es := DayEntries(year, month, dayDir);
    if es == [] then [] else [Day(year, month, dayDir.name, es)]
  }

  /** The days of a month directory, from its day directories in the given order. */
  function DaysIn(year: string, month: string, dirs: seq<Node>): (r: seq<Day>)
    ensures forall i :: 0 <= i < |r| ==> r[i].year == year && r[i].month == month && Contains(r[i].day, "-")
    ensures forall i :: 0 <= i < |r| ==> r[i].entries != [] && FiledUnder(r[i].entries, year, month, r[i].day)
    decreases |dirs|
  {
    if dirs == [] then []
    else
      var last := dirs[|dirs| - 1];
      DaysIn(year, month, dirs[..|dirs| - 1]) + (if IsDayDir(last) then DayOf(year, month, last) else [])
  }

  /** The days of a year directory, from its month directories in the given order. */
  function MonthsIn(year: string, dirs: seq<Node>): (r: seq<Day>)
    ensures forall i :: 0 <= i < |r| ==> r[i].year == year && IsDigits(r[i].month) && Contains(r[i].day, "-")
    ensures forall i :: 0 <= i < |r| ==> r[i].entries != [] && FiledUnder(r[i].entries, year, r[i].month, r[i].day)
    decreases |dirs|
  {
    if dirs == [] then []
    else
      var last := dirs[|dirs| - 1];
      MonthsIn(year, dirs[..|dirs| - 1]) + (if IsNumberDir(last) then DaysIn(year, last.name, Newest(last.children)) else [])
  }

  /** The days of the repository, from its year directories in the given order. */
  function YearsIn(dirs: seq<Node>): (r: seq<Day>)
    ensures forall i :: 0 <= i < |r| ==> Listed(r[i])
    decreases |dirs|
  {
    if dirs == [] then []
    else
      var last := dirs[|dirs| - 1];
      YearsIn(dirs[..|dirs| - 1]) + (if IsNumberDir(last) then MonthsIn(last.name, Newest(last.children)) else [])
  }

  /** `get_all_entries`: nothing without a repository, else the walk from the newest year down. */
  function AllEntries(repoExists: bool, top: seq<Node>): seq<Day> {
    if repoExists then YearsIn(Newest(top)) else []
  }

  lemma EntriesStep(files: seq<Node>, i: nat, year: string, month: string, day: string)
    requires i < |files| && forall k :: 0 <= k < |files| ==> files[k].File?
    ensures EntriesFrom(files[..i + 1], year, month, day)
      == EntriesFrom(files[..i], year, month, day) + [EntryFrom(files[i], year, month, day)]
  {
    assert files[..i + 1][..i] == files[..i];
    assert files[..i + 1][i] == files[i];
  }

  lemma DaysStep(year: string, month: string, dirs: seq<Node>, i: nat)
    requires i < |dirs|
    ensures DaysIn(year, month, dirs[..i + 1])
      == DaysIn(year, month, dirs[..i]) + (if IsDayDir(dirs[i]) then DayOf(year, month, dirs[i]) else [])
  {
    assert dirs[..i + 1][..i] == dirs[..i];
    assert dirs[..i + 1][i] == dirs[i];
  }

  lemma MonthsStep(year: string, dirs: seq<Node>, i: nat)
    requires i < |dirs|
    ensures MonthsIn(year, dirs[..i + 1])
      == MonthsIn(year, dirs[..i]) + (if IsNumberDir(dirs[i]) then DaysIn(year, dirs[i].name, Newest(dirs[i].children)) else [])
  {
    assert dirs[..i + 1][..i] == dirs[..i];
    assert dirs[..i + 1][i] == dirs[i];
  }

  lemma YearsStep(dirs: seq<Node>, i: nat)
    requires i < |dirs|
    ensures YearsIn(dirs[..i + 1])
      == YearsIn(dirs[..i]) + (if IsNumberDir(dirs[i]) then MonthsIn(dirs[i].name, Newest(dirs[i].children)) else [])
  {
    assert dirs[..i + 1][..i] == dirs[..i];
    assert dirs[..i + 1][i] == dirs[i];
  }

  /** The innermost loop of `get_all_entries`: one entry per `.md` file, newest name first. */
  method ReadDay(year: string, month: string, dayDir: Node) returns (dayEntries: seq<Entry>)
    requires dayDir.Dir?
    ensures dayEntries == DayEntries(year, month, dayDir)
  {
    var files := DayFiles(dayDir);
    dayEntries := [];
    for i := 0 to |files|
      invariant dayEntries == EntriesFrom(files[..i], year, month, dayDir.name)
    {
      EntriesStep(files, i, year, month, dayDir.name);
      var entryFile := files[i];
      var date, content := ParseEntry(entryFile.text);
      dayEntries := dayEntries + [Entry(Stem(entryFile.name), date, content, year, month, dayDir.name)];
    }
    assert files[..|files|] == files;
  }

  /** The day loop of `get_all_entries` over one month directory. */
  method CollectDays(year: string, month: string, monthDir: Node) returns (days: seq<Day>)
    requires monthDir.Dir?
    ensures days == DaysIn(year, month, Newest(monthDir.children))
  {
    var dayDirs := Newest(monthDir.children);
    days := [];
    for i := 0 to |dayDirs|
      invariant days == DaysIn(year, month, dayDirs[..i])
    {
      DaysStep(year, month, dayDirs, i);
      var dayDir := dayDirs[i];
      if !IsDayDir(dayDir) {
        continue;
      }
      var dayEntries := ReadDay(year, month, dayDir);
      if dayEntries != [] {
        days := days + [Day(year, month, dayDir.name, dayEntries)];
      }
    }
    assert dayDirs[..|dayDirs|] == dayDirs;
  }

  /** The month loop of `get_all_entries` over one year directory. */
  method CollectMonths(year: string, yearDir: Node) returns (days: seq<Day>)
    requires yearDir.Dir?
    ensures days == MonthsIn(year, Newest(yearDir.children))
  {
    var monthDirs := Newest(yearDir.children);
    days := [];
    for i := 0 to |monthDirs|
      invariant days == MonthsIn(year, monthDirs[..i])
    {
      MonthsStep(year, monthDirs, i);
      var monthDir := monthDirs[i];
      if !IsNumberDir(monthDir) {
        continue;
      }
      var monthDays := CollectDays(year, monthDir.name, monthDir);
      days := days + monthDays;
    }
    assert monthDirs[..|monthDirs|] == monthDirs;
  }

  /** `get_all_entries` over the repository's top-level nodes. */
  method GetAllEntries(repoExists: bool, top: seq<Node>) returns (days: seq<Day>)
    ensures days == AllEntries(repoExists, top)
  {
    days := [];
    if !repoExists {
      return;
    }
    var yearDirs := Newest(top);
    for i := 0 to |yearDirs|
      invariant days == YearsIn(yearDirs[..i])
    {
      YearsStep(yearDirs, i);
      var yearDir := yearDirs[i];
      if !IsNumberDir(yearDir) {
        continue;
      }
      var yearDays := CollectMonths(yearDir.name, yearDir);
      days := days + yearDays;
    }
    assert yearDirs[..|yearDirs|] == yearDirs;
  }

  /** No day of `DaysIn` sorts below a bound that no directory sorts below. */
  lemma {:induction false} DaysNotBelow(year: string, month: string, dirs: seq<Node>, bound: string)
    requires forall k :: 0 <= k < |dirs| ==> !StrLess(dirs[k].name, bound)
    ensures forall i :: 0 <= i < |DaysIn(year, month, dirs)| ==> !StrLess(DaysIn(year, month, dirs)[i].day, bound)
    decreases |dirs|
  {
    if dirs != [] {
      DaysNotBelow(year, month, dirs[..|dirs| - 1], bound);
    }
  }

  /** No day is followed by one with a later name. */
  predicate NewestDayFirst(days: seq<Day>) {
    forall i, j :: 0 <= i < j < |days| ==> !StrLess(days[i].day, days[j].day)
  }

  /** Days of a month come out in the order of their directories: newest name first. */
  lemma {:induction false} DaysDescending(year: string, month: string, dirs: seq<Node>)
    requires Descending(dirs, NameKey)
    ensures NewestDayFirst(DaysIn(year, month, dirs))
    decreases |dirs|
  {
    if dirs != [] {
      var prefix := dirs[..|dirs| - 1];
      var last := dirs[|dirs| - 1];
      assert Descending(prefix, NameKey);
      DaysDescending(year, month, prefix);
      forall k | 0 <= k < |prefix|
        ensures !StrLess(prefix[k].name, last.name)
      {
        NamePaths(prefix[k].name, last.name);
      }
      DaysNotBelow(year, month, prefix, last.name);
      var p := DaysIn(year, month, prefix);
      var r := DaysIn(year, month, dirs);
      assert r == p + (if IsDayDir(last) then DayOf(year, month, last) else []);
      forall i, j | 0 <= i < j < |r|
        ensures !StrLess(r[i].day, r[j].day)
      {
        if j < |p| {
          assert r[i] == p[i] && r[j] == p[j];
        } else {
          assert r[i] == p[i] && r[j].day == last.name;
        }
      }
    }
  }

  /** `get_all_entries` lists the days of each month newest first. */
  lemma MonthNewestFirst(year: string, month: string, monthDir: Node)
    requires monthDir.Dir?
    ensures NewestDayFirst(DaysIn(year, month, Newest(monthDir.children)))
  {
    SortDescendingSorted(monthDir.children, NameKey);
    DaysDescending(year, month, Newest(monthDir.children));
  }

  /** Every day directory with an entry file is listed: only empty days are omitted. */
  lemma {:induction false} DayListed(year: string, month: string, dirs: seq<Node>, k: nat)
    requires k < |dirs| && IsDayDir(dirs[k]) && DayEntries(year, month, dirs[k]) != []
    ensures Day(year, month, dirs[k].name, DayEntries(year, month, dirs[k])) in DaysIn(year, month, dirs)
    decreases |dirs|
  {
    if k < |dirs| - 1 {
      DayListed(year, month, dirs[..|dirs| - 1], k);
    }
  }
}
