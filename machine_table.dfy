/**
 * The inventory-table scraper of webborrow/app.py (`parse_machine_table`).
 *
 * The inventory tool prints a "Stand alone" table, one table per cluster,
 * a table of traffic generators ("DP IXIAs") and a summary table, all drawn
 * with box characters. The scraper removes colour codes, cuts the text into
 * lines and runs a small state machine over them: marker lines switch the
 * current section, and inside the standalone and cluster sections every
 * bar-separated data row becomes one machine record.
 */
module MachineTable {
  import opened Wrappers
  import opened Text
  import opened Ansi
  import opened Box

  /** The `state` the scraper derives from a machine's status text. */
  datatype State = Available | Offline | NoSsh | NoCheetah | Deployed | Borrowed

  /**
   * One machine record. `nceId` is present exactly for rows of cluster
   * tables; `cluster` is the id of the cluster table the row came from.
   */
  datatype Machine = Machine(
    nceId: Option<string>,
    vendor: string,
    deviceType: string,
    revision: string,
    name: string,
    baseosVersion: string,
    status: string,
    borrowUptime: string,
    gitBranch: string,
    lastConnection: string,
    comment: string,
    cluster: Option<string>,
    state: State,
    borrower: Option<string>)

  /** The scanner's state: `current_section`, `current_cluster`, `is_cluster_table`. */
  datatype Scan = Scan(section: Option<string>, cluster: Option<string>, isClusterTable: bool)

  const Start: Scan := Scan(None, None, false)

  /** Only the standalone section and the cluster sections hold machine rows. */
  predicate InRowSection(sc: Scan) {
    sc.section == Some("standalone")
    || (sc.section.Some? && StartsWith(sc.section.value, "cluster_"))
  }

  /** A cluster table keeps the id of its cluster. */
  predicate Consistent(sc: Scan) {
    sc.isClusterTable ==> sc.cluster.Some?
  }

  // ---------------------------------------------------------------------
  // Cluster headings: the leftmost match of `Cluster\s+(\d+)`
  // ---------------------------------------------------------------------

  predicate IsDigit(c: char) {
    '0' <= c <= '9'
  }

  /** Length of the longest whitespace prefix. */
  function SpaceRun(s: string): (n: nat)
    ensures n <= |s|
    ensures forall i :: 0 <= i < n ==> IsSpace(s[i])
    ensures n == |s| || !IsSpace(s[n])
  {
    if s == [] || !IsSpace(s[0]) then 0 else 1 + SpaceRun(s[1..])
  }

  /** Length of the longest digit prefix. */
  function DigitRun(s: string): (n: nat)
    ensures n <= |s|
    ensures forall i :: 0 <= i < n ==> IsDigit(s[i])
    ensures n == |s| || !IsDigit(s[n])
  {
    if s == [] || !IsDigit(s[0]) then 0 else 1 + DigitRun(s[1..])
  }

  /**
   * The digits captured by `\s+(\d+)` at the start of `rest`. Whitespace and
   * digits are disjoint, so the greedy match is the only one: all the
   * leading whitespace, then all the digits after it.
   */
  function IdAfter(rest: string): (r: Option<string>)
    ensures r.Some? ==> r.value != [] && forall i :: 0 <= i < |r.value| ==> IsDigit(r.value[i])
  {
    var n := SpaceRun(rest);
    var d := DigitRun(rest[n..]);
    if n > 0 && d > 0 then Some(rest[n..n + d]) else None
  }

  /** `re.search(r'Cluster\s+(\d+)', line)`, as the captured group. */
  function ClusterId(line: string): (r: Option<string>)
    ensures r.Some? ==> Contains(line, "Cluster")
    ensures r.Some? ==> r.value != [] && forall i :: 0 <= i < |r.value| ==> IsDigit(r.value[i])
    decreases |line|
  {
    if |line| < 7 then None
    else if StartsWith(line, "Cluster") && IdAfter(line[7..]).Some? then
      assert OccursAt(line, "Cluster", 0);
      IdAfter(line[7..])
    else
      var r := ClusterId(line[1..]);
      if r.Some? then
        ShiftOccurrence(line, "Cluster");
        var j := IndexOf(line[1..], "Cluster").value;
        assert OccursAt(line, "Cluster", j + 1);
        r
      else r
  }

  // ---------------------------------------------------------------------
  // One line
  // ---------------------------------------------------------------------

  /**
   * The new state when `line` is a section marker, or None for any other
   * line. The markers are tried in the source's order, so "Stand alone"
   * wins over all the others, and a "Cluster" line without an id is
   * consumed without changing anything.
   */
  function Marker(sc: Scan, line: string): Option<Scan> {
    if Contains(line, "Stand alone") then
      Some(Scan(Some("standalone"), None, false))
    else if Contains(line, "Cluster") && !Contains(line, HRule) then
      match ClusterId(line)
      case Some(id) => Some(Scan(Some("cluster_" + id), Some(id), true))
      case None => Some(sc)
    else if Contains(line, "DP IXIAs") then
      Some(sc.(section := Some("ixia")))
    else if Contains(line, "Total") && Contains(line, "Free") && Contains(line, "Taken") then
      Some(sc.(section := Some("summary")))
    else
      None
  }

  /** A line drawing a border: a rule or a corner string. */
  predicate IsRuleLine(line: string) {
    Contains(line, HRule) || Contains(line, TopLeft) || Contains(line, BottomLeft)
    || Contains(line, LeftTee) || Contains(line, DoubleRule)
  }

  /** A column-heading line. */
  predicate IsHeaderLine(line: string) {
    Contains(line, "wbox_name")
    || (Contains(line, "vendor") && Contains(line, "type") && Contains(line, "revision"))
  }

  /** The cells of a row: split on the bar, trimmed, empty ones dropped. */
  function Fields(line: string): (r: seq<string>)
    ensures forall i :: 0 <= i < |r| ==> r[i] != []
  {
    DropEmpty(StripEach(Split(line, VBar)))
  }

  /** Column `i`, or `''` when the row is shorter. */
  function Cell(cols: seq<string>, i: nat): string {
    if i < |cols| then cols[i] else ""
  }

  /**
   * First match on the lower-cased status: the keywords available, no ping,
   * no ssh and no cheetah in that order, then deploy without a parenthesis;
   * whatever matches none of them is a borrower's status.
   */
  function StateOf(status: string): (r: State)
    ensures r == Available <==> Contains(Lower(status), "available")
    ensures r == Offline <==> !Contains(Lower(status), "available") && Contains(Lower(status), "no ping")
    ensures r == NoSsh <==> !Contains(Lower(status), "available") && !Contains(Lower(status), "no ping")
                            && Contains(Lower(status), "no ssh")
    ensures r == NoCheetah <==> !Contains(Lower(status), "available") && !Contains(Lower(status), "no ping")
                                && !Contains(Lower(status), "no ssh") && Contains(Lower(status), "no cheetah")
    ensures r == Deployed ==> Contains(Lower(status), "deploy") && !Contains(Lower(status), "(")
    ensures r == Borrowed <==> !Contains(Lower(status), "available") && !Contains(Lower(status), "no ping")
                               && !Contains(Lower(status), "no ssh") && !Contains(Lower(status), "no cheetah")
                               && !(Contains(Lower(status), "deploy") && !Contains(Lower(status), "("))
  {
    var low := Lower(status);
    if Contains(low, "available") then Available
    else if Contains(low, "no ping") then Offline
    else if Contains(low, "no ssh") then NoSsh
    else if Contains(low, "no cheetah") then NoCheetah
    else if Contains(low, "deploy") && !Contains(low, "(") then Deployed
    else Borrowed
  }

  /**
   * The borrower of a borrowed machine: the status without its "(deploy)"
   * marks, trimmed, or the whole status when nothing is left.
   */
  function BorrowerOf(status: string): (r: Option<string>)
    ensures r.Some? <==> StateOf(status) == Borrowed
    ensures r.Some? && status != [] ==> r.value != []
  {
    if StateOf(status) == Borrowed then
      var b := Strip(ReplaceAll(status, "(deploy)", ""));
      Some(if b == [] then status else b)
    else None
  }

  /** The record for the columns of a row, with state and borrower derived from the status. */
  function MakeMachine(nceId: Option<string>, cols: seq<string>, cluster: Option<string>): (r: Machine)
    ensures r.name == Cell(cols, 3) && r.status == Cell(cols, 5)
    ensures r.nceId == nceId && r.cluster == cluster
    ensures r.state == StateOf(r.status) && r.borrower == BorrowerOf(r.status)
    ensures r.borrower.Some? <==> r.state == Borrowed
  {
    var status := Cell(cols, 5);
    Machine(nceId, Cell(cols, 0), Cell(cols, 1), Cell(cols, 2), Cell(cols, 3), Cell(cols, 4),
            status, Cell(cols, 6), Cell(cols, 7), Cell(cols, 8), Cell(cols, 9),
            cluster, StateOf(status), BorrowerOf(status))
  }

  /** What every record the scraper emits satisfies. */
  predicate WellFormed(m: Machine) {
    && m.name != [] && m.name != "wbox_name"
    && m.status != []
    && m.state == StateOf(m.status)
    && m.borrower == BorrowerOf(m.status)
    && (m.borrower.Some? <==> m.state == Borrowed)
    && (m.borrower.Some? ==> m.borrower.value != [])
    && (m.nceId.Some? <==> m.cluster.Some?)
  }

  /**
   * The record for the fields of a data row: at least six fields, ten in a
   * cluster table, and a name that is not the heading "wbox_name".
   */
  function RecordOf(isClusterTable: bool, cluster: Option<string>, parts: seq<string>): (r: Option<Machine>)
    requires isClusterTable ==> cluster.Some?
    requires forall i :: 0 <= i < |parts| ==> parts[i] != []
    ensures r.Some? ==> WellFormed(r.value)
    ensures r.Some? ==> r.value.cluster == (if isClusterTable then cluster else None)
    ensures r.Some? ==> |parts| >= (if isClusterTable then 10 else 6)
  {
    if |parts| < 6 || (isClusterTable && |parts| < 10) then None
    else
      var nceId := if isClusterTable then Some(parts[0]) else None;
      var cols := if isClusterTable then parts[1..] else parts;
      var m := MakeMachine(nceId, cols, if isClusterTable then cluster else None);
      if m.name == [] || m.name == "wbox_name" then None
      else
        assert m.status == cols[5];
        MadeWellFormed(m);
        Some(m)
  }

  lemma MadeWellFormed(m: Machine)
    requires m.name != [] && m.name != "wbox_name" && m.status != []
    requires m.state == StateOf(m.status) && m.borrower == BorrowerOf(m.status)
    requires m.nceId.Some? <==> m.cluster.Some?
    ensures WellFormed(m)
  {
  }

  /** The record a line of a standalone or cluster section yields, if any. */
  function RowRecord(isClusterTable: bool, cluster: Option<string>, line: string): (r: Option<Machine>)
    requires isClusterTable ==> cluster.Some?
    ensures r.Some? ==> WellFormed(r.value)
    ensures r.Some? ==> r.value.cluster == (if isClusterTable then cluster else None)
    ensures r.Some? ==> Contains(line, VBar) && !IsRuleLine(line) && !IsHeaderLine(line)
  {
    if !Contains(line, VBar) || IsRuleLine(line) || IsHeaderLine(line) then None
    else RecordOf(isClusterTable, cluster, Fields(line))
  }

  // ---------------------------------------------------------------------
  // The scan, as a fold over the lines
  // ---------------------------------------------------------------------

  /** The state after one line. */
  function Step(sc: Scan, line: string): Scan {
    match Marker(sc, line)
    case Some(next) => next
    case None => sc
  }

  /** The records one line contributes. */
  function Emit(sc: Scan, line: string): seq<Machine>
    requires Consistent(sc)
  {
    if Marker(sc, line).Some? || !InRowSection(sc) then []
    else
      match RowRecord(sc.isClusterTable, sc.cluster, line)
      case Some(m) => [m]
      case None => []
  }

  lemma StepConsistent(sc: Scan, line: string)
    requires Consistent(sc)
    ensures Consistent(Step(sc, line))
  {
  }

  /** The state after a run of lines. */
  function ScanFrom(sc: Scan, lines: seq<string>): (r: Scan)
    requires Consistent(sc)
    ensures Consistent(r)
    decreases |lines|
  {
    if lines == [] then sc
    else
      var before := ScanFrom(sc, lines[..|lines| - 1]);
      StepConsistent(before, lines[|lines| - 1]);
      Step(before, lines[|lines| - 1])
  }

  /** The records a run of lines yields, in line order. */
  function ParseFrom(sc: Scan, lines: seq<string>): seq<Machine>
    requires Consistent(sc)
    decreases |lines|
  {
    if lines == [] then []
    else
      var prefix := lines[..|lines| - 1];
      ParseFrom(sc, prefix) + Emit(ScanFrom(sc, prefix), lines[|lines| - 1])
  }

  /** One more line: one more step of the scan, and that line's records at the end. */
  lemma FoldStep(sc: Scan, lines: seq<string>, i: nat)
    requires Consistent(sc) && i < |lines|
    ensures ScanFrom(sc, lines[..i + 1]) == Step(ScanFrom(sc, lines[..i]), lines[i])
    ensures ParseFrom(sc, lines[..i + 1]) == ParseFrom(sc, lines[..i]) + Emit(ScanFrom(sc, lines[..i]), lines[i])
  {
    assert lines[..i + 1][..i] == lines[..i];
  }

  /** The records of the whole output. */
  function Machines(output: string): seq<Machine> {
    ParseFrom(Start, Lines(StripAnsi(output)))
  }

  /** `parse_machine_table`: the loop over the lines with its three state variables. */
  method ParseMachineTable(output: string) returns (machines: seq<Machine>)
    ensures machines == Machines(output)
  {
    var lines := Lines(StripAnsi(output));
    machines := [];
    var section: Option<string> := None;
    var cluster: Option<string> := None;
    var isClusterTable := false;
    for i := 0 to |lines|
      invariant Scan(section, cluster, isClusterTable) == ScanFrom(Start, lines[..i])
      invariant machines == ParseFrom(Start, lines[..i])
    {
      FoldStep(Start, lines, i);
      var line := lines[i];
      if Contains(line, "Stand alone") {
        section := Some("standalone");
        isClusterTable := false;
        cluster := None;
        continue;
      } else if Contains(line, "Cluster") && !Contains(line, HRule) {
        var id := ClusterId(line);
        if id.Some? {
          cluster := id;
          section := Some("cluster_" + id.value);
          isClusterTable := true;
        }
        continue;
      } else if Contains(line, "DP IXIAs") {
        section := Some("ixia");
        continue;
      } else if Contains(line, "Total") && Contains(line, "Free") && Contains(line, "Taken") {
        section := Some("summary");
        continue;
      }
      if !InRowSection(Scan(section, cluster, isClusterTable)) {
        continue;
      }
      var m := RowRecord(isClusterTable, cluster, line);
      if m.Some? {
        machines := machines + [m.value];
      }
    }
    assert lines[..|lines|] == lines;
  }

  // ---------------------------------------------------------------------
  // Properties of the scan
  // ---------------------------------------------------------------------

  /** Scanning `a + b` is scanning `a`, then `b` from where `a` left off. */
  lemma {:induction false} FoldAppend(sc: Scan, a: seq<string>, b: seq<string>)
    requires Consistent(sc)
    ensures ScanFrom(sc, a + b) == ScanFrom(ScanFrom(sc, a), b)
    ensures ParseFrom(sc, a + b) == ParseFrom(sc, a) + ParseFrom(ScanFrom(sc, a), b)
    decreases |b|
  {
    if b == [] {
      assert a + b == a;
    } else {
      var b' := b[..|b| - 1];
      assert (a + b)[..|a + b| - 1] == a + b';
      FoldAppend(sc, a, b');
    }
  }

  /** A line that puts the scan into a row section. */
  predicate OpensSection(line: string) {
    Contains(line, "Stand alone")
    || (Contains(line, "Cluster") && !Contains(line, HRule) && ClusterId(line).Some?)
  }

  /**
   * Outside the standalone and cluster sections nothing is emitted until a
   * line opens one of them.
   */
  lemma {:induction false} NoRecordsOutsideSections(sc: Scan, lines: seq<string>)
    requires Consistent(sc) && !InRowSection(sc)
    requires forall i :: 0 <= i < |lines| ==> !OpensSection(lines[i])
    ensures ParseFrom(sc, lines) == []
    ensures !InRowSection(ScanFrom(sc, lines))
    decreases |lines|
  {
    if lines != [] {
      var prefix := lines[..|lines| - 1];
      NoRecordsOutsideSections(sc, prefix);
      QuietLine(ScanFrom(sc, prefix), lines[|lines| - 1]);
    }
  }

  /** Outside a row section, a line that opens none emits nothing and stays outside. */
  lemma QuietLine(sc: Scan, line: string)
    requires Consistent(sc) && !InRowSection(sc) && !OpensSection(line)
    ensures Emit(sc, line) == [] && !InRowSection(Step(sc, line))
  {
  }

  /** Lines before the first line that opens a section yield no records. */
  lemma NothingBeforeFirstSection(before: seq<string>, rest: seq<string>)
    requires forall i :: 0 <= i < |before| ==> !OpensSection(before[i])
    ensures ParseFrom(Start, before + rest) == ParseFrom(ScanFrom(Start, before), rest)
  {
    FoldAppend(Start, before, rest);
    NoRecordsOutsideSections(Start, before);
  }

  /** A line containing "DP IXIAs" that no earlier marker test catches. */
  predicate IsIxiaMarker(line: string) {
    && Contains(line, "DP IXIAs")
    && !Contains(line, "Stand alone")
    && !(Contains(line, "Cluster") && !Contains(line, HRule))
  }

  /** A line naming the summary columns that no earlier marker test catches. */
  predicate IsSummaryMarker(line: string) {
    && Contains(line, "Total") && Contains(line, "Free") && Contains(line, "Taken")
    && !Contains(line, "Stand alone")
    && !(Contains(line, "Cluster") && !Contains(line, HRule))
    && !Contains(line, "DP IXIAs")
  }

  /** The ixia and summary headings leave every row section. */
  lemma QuietMarker(sc: Scan, marker: string)
    requires Consistent(sc)
    requires IsIxiaMarker(marker) || IsSummaryMarker(marker)
    ensures Emit(sc, marker) == []
    ensures !InRowSection(Step(sc, marker))
  {
    var heading := if IsIxiaMarker(marker) then "ixia" else "summary";
    assert Marker(sc, marker) == Some(sc.(section := Some(heading)));
    assert |heading| < |"cluster_"|;
  }

  /**
   * After the "DP IXIAs" heading or the summary heading, no record is
   * emitted until a line opens a standalone or cluster section again.
   */
  lemma NothingAfterIxiaOrSummary(sc: Scan, before: seq<string>, marker: string, after: seq<string>)
    requires Consistent(sc)
    requires IsIxiaMarker(marker) || IsSummaryMarker(marker)
    requires forall i :: 0 <= i < |after| ==> !OpensSection(after[i])
    ensures ParseFrom(sc, before + [marker] + after) == ParseFrom(sc, before)
  {
    var mid := ScanFrom(sc, before);
    FoldStep(sc, before + [marker], |before|);
    assert (before + [marker])[..|before|] == before;
    assert (before + [marker])[..|before| + 1] == before + [marker];
    QuietMarker(mid, marker);
    FoldAppend(sc, before + [marker], after);
    NoRecordsOutsideSections(ScanFrom(sc, before + [marker]), after);
  }

  /**
   * A "Stand alone" line switches to the standalone section whatever else
   * it contains, and yields no record.
   */
  lemma StandAloneMarker(sc: Scan, before: seq<string>, line: string)
    requires Consistent(sc) && Contains(line, "Stand alone")
    ensures ScanFrom(sc, before + [line]) == Scan(Some("standalone"), None, false)
    ensures ParseFrom(sc, before + [line]) == ParseFrom(sc, before)
  {
    FoldStep(sc, before + [line], |before|);
    assert (before + [line])[..|before|] == before;
    assert (before + [line])[..|before| + 1] == before + [line];
  }

  /**
   * A "Cluster <digits>" heading switches to that cluster's table, and a
   * "Cluster" line without an id is consumed without changing the state.
   */
  lemma ClusterMarker(sc: Scan, before: seq<string>, line: string)
    requires Consistent(sc)
    requires Contains(line, "Cluster") && !Contains(line, HRule) && !Contains(line, "Stand alone")
    ensures ClusterId(line).Some? ==>
      ScanFrom(sc, before + [line]) == Scan(Some("cluster_" + ClusterId(line).value), ClusterId(line), true)
    ensures ClusterId(line).None? ==> ScanFrom(sc, before + [line]) == ScanFrom(sc, before)
    ensures ParseFrom(sc, before + [line]) == ParseFrom(sc, before)
  {
    FoldStep(sc, before + [line], |before|);
    assert (before + [line])[..|before|] == before;
    assert (before + [line])[..|before| + 1] == before + [line];
  }

  /** Every record the scan emits is well formed. */
  lemma {:induction false} RecordsWellFormed(sc: Scan, lines: seq<string>)
    requires Consistent(sc)
    ensures forall k :: 0 <= k < |ParseFrom(sc, lines)| ==> WellFormed(ParseFrom(sc, lines)[k])
    decreases |lines|
  {
    if lines != [] {
      RecordsWellFormed(sc, lines[..|lines| - 1]);
    }
  }

  /** Every record of the whole output is well formed. */
  lemma MachinesWellFormed(output: string)
    ensures forall m <- Machines(output) :: WellFormed(m)
  {
    RecordsWellFormed(Start, Lines(StripAnsi(output)));
  }

  /** `ClusterId` reads the id right after a "Cluster" at the start of the line. */
  lemma ClusterIdAtStart(ws: string, digits: string, rest: string)
    requires ws != [] && AllSpace(ws)
    requires digits != [] && forall i :: 0 <= i < |digits| ==> IsDigit(digits[i])
    requires rest == [] || !IsDigit(rest[0])
    ensures ClusterId("Cluster" + ws + digits + rest) == Some(digits)
  {
    var line := "Cluster" + ws + digits + rest;
    assert line[7..] == ws + digits + rest;
    assert line[..7] == "Cluster";
    assert StartsWith(line, "Cluster");
    IdAfterRun(ws, digits, rest);
    assert IdAfter(line[7..]) == Some(digits);
  }

  lemma IdAfterRun(ws: string, digits: string, rest: string)
    requires ws != [] && AllSpace(ws)
    requires digits != [] && forall i :: 0 <= i < |digits| ==> IsDigit(digits[i])
    requires rest == [] || !IsDigit(rest[0])
    ensures IdAfter(ws + digits + rest) == Some(digits)
  {
    var tail := ws + digits + rest;
    assert tail == ws + (digits + rest);
    assert (digits + rest)[0] == digits[0];
    SpaceRunPrefix(ws, digits + rest);
    assert tail[|ws|..] == digits + rest;
    DigitRunPrefix(digits, rest);
    assert (digits + rest)[..|digits|] == digits;
    assert tail[|ws|..|ws| + |digits|] == digits;
  }

  lemma {:induction false} SpaceRunPrefix(ws: string, rest: string)
    requires AllSpace(ws) && (rest == [] || !IsSpace(rest[0]))
    ensures SpaceRun(ws + rest) == |ws|
    decreases |ws|
  {
    if ws != [] {
      assert (ws + rest)[1..] == ws[1..] + rest;
      SpaceRunPrefix(ws[1..], rest);
    } else {
      assert ws + rest == rest;
    }
  }

  lemma {:induction false} DigitRunPrefix(digits: string, rest: string)
    requires forall i :: 0 <= i < |digits| ==> IsDigit(digits[i])
    requires rest == [] || !IsDigit(rest[0])
    ensures DigitRun(digits + rest) == |digits|
    decreases |digits|
  {
    if digits != [] {
      assert (digits + rest)[1..] == digits[1..] + rest;
      DigitRunPrefix(digits[1..], rest);
    } else {
      assert digits + rest == rest;
    }
  }

  // ---------------------------------------------------------------------
  // Rows drawn by the inventory tool
  // ---------------------------------------------------------------------

  /**
   * The cells of an ordinary data row: plain text that is not blank and
   * mentions neither a section marker nor a column heading.
   */
  predicate DataCells(cells: seq<string>) {
    && cells != [] && PlainCells(cells)
    && (forall q :: 0 <= q < |cells| ==> Strip(cells[q]) != [])
    && QuietCells(cells)
  }

  /** No cell mentions a section marker or a column heading. */
  predicate QuietCells(cells: seq<string>) {
    && !MentionedIn(cells, "Stand alone")
    && !MentionedIn(cells, "Cluster")
    && !MentionedIn(cells, "DP IXIAs")
    && !(MentionedIn(cells, "Total") && MentionedIn(cells, "Free") && MentionedIn(cells, "Taken"))
    && !MentionedIn(cells, "wbox_name")
    && !(MentionedIn(cells, "vendor") && MentionedIn(cells, "type") && MentionedIn(cells, "revision"))
  }

  /** A trimmed cell equal to `w` means the row mentions `w`. */
  lemma StripMention(cells: seq<string>, q: nat, w: string)
    requires q < |cells|
    ensures Strip(cells[q]) == w ==> MentionedIn(cells, w)
  {
    ContainsStrip(cells[q]);
  }

  /** A data row is no marker, passes the row filters, and its fields are its trimmed cells. */
  lemma DataRow(sc: Scan, cells: seq<string>)
    requires DataCells(cells)
    ensures Marker(sc, BoxRow(VBar, cells)).None?
    ensures Contains(BoxRow(VBar, cells), VBar)
    ensures !IsRuleLine(BoxRow(VBar, cells)) && !IsHeaderLine(BoxRow(VBar, cells))
    ensures Fields(BoxRow(VBar, cells)) == StripEach(cells)
  {
    DataRowWords(cells);
    DataRowSeparators(cells);
    DataRowFields(cells);
  }

  /** Words of ASCII letters share no character with the bar. */
  lemma DataRowWords(cells: seq<string>)
    requires cells != [] && QuietCells(cells)
    ensures !Contains(BoxRow(VBar, cells), "Stand alone")
    ensures !Contains(BoxRow(VBar, cells), "Cluster")
    ensures !Contains(BoxRow(VBar, cells), "DP IXIAs")
    ensures !(Contains(BoxRow(VBar, cells), "Total") && Contains(BoxRow(VBar, cells), "Free")
              && Contains(BoxRow(VBar, cells), "Taken"))
    ensures !IsHeaderLine(BoxRow(VBar, cells))
  {
    DataRowMarkerWords(cells);
    DataRowCountWords(cells);
    DataRowHeaderWords(cells);
  }

  lemma DataRowMarkerWords(cells: seq<string>)
    requires cells != [] && QuietCells(cells)
    ensures !Contains(BoxRow(VBar, cells), "Stand alone")
    ensures !Contains(BoxRow(VBar, cells), "Cluster")
    ensures !Contains(BoxRow(VBar, cells), "DP IXIAs")
  {
    AsciiMention(cells, "Stand alone");
    AsciiMention(cells, "Cluster");
    AsciiMention(cells, "DP IXIAs");
  }

  lemma DataRowCountWords(cells: seq<string>)
    requires cells != [] && QuietCells(cells)
    ensures !(Contains(BoxRow(VBar, cells), "Total") && Contains(BoxRow(VBar, cells), "Free")
              && Contains(BoxRow(VBar, cells), "Taken"))
  {
    AsciiMention(cells, "Total");
    AsciiMention(cells, "Free");
    AsciiMention(cells, "Taken");
  }

  lemma DataRowHeaderWords(cells: seq<string>)
    requires cells != [] && QuietCells(cells)
    ensures !IsHeaderLine(BoxRow(VBar, cells))
  {
    AsciiMention(cells, "wbox_name");
    DataRowColumnWords(cells);
  }

  lemma DataRowColumnWords(cells: seq<string>)
    requires cells != [] && !(MentionedIn(cells, "vendor") && MentionedIn(cells, "type") && MentionedIn(cells, "revision"))
    ensures !(Contains(BoxRow(VBar, cells), "vendor") && Contains(BoxRow(VBar, cells), "type")
              && Contains(BoxRow(VBar, cells), "revision"))
  {
    AsciiMention(cells, "vendor");
    AsciiMention(cells, "type");
    AsciiMention(cells, "revision");
  }

  predicate IsAscii(w: string) {
    forall i :: 0 <= i < |w| ==> w[i] < '\U{80}'
  }

  lemma AsciiMention(cells: seq<string>, w: string)
    requires cells != [] && w != [] && IsAscii(w)
    ensures Contains(BoxRow(VBar, cells), w) ==> MentionedIn(cells, w)
  {
    BoxRowMention(VBar, cells, w);
  }

  lemma DataRowSeparators(cells: seq<string>)
    requires cells != [] && PlainCells(cells)
    ensures Contains(BoxRow(VBar, cells), VBar)
    ensures !IsRuleLine(BoxRow(VBar, cells))
  {
    assert OccursAt(BoxRow(VBar, cells), VBar, 0);
    BoxRowLacksOtherSeparators(VBar, cells, HRule);
    BoxRowLacksOtherSeparators(VBar, cells, TopLeft);
    BoxRowLacksOtherSeparators(VBar, cells, BottomLeft);
    BoxRowLacksOtherSeparators(VBar, cells, LeftTee);
    BoxRowLacksOtherSeparators(VBar, cells, DoubleRule);
  }

  lemma DataRowFields(cells: seq<string>)
    requires cells != [] && PlainCells(cells)
    requires forall q :: 0 <= q < |cells| ==> Strip(cells[q]) != []
    ensures Fields(BoxRow(VBar, cells)) == StripEach(cells)
  {
    SplitRow(cells);
    FramedFields(cells);
  }

  lemma SplitRow(cells: seq<string>)
    requires cells != [] && PlainCells(cells)
    ensures Fields(BoxRow(VBar, cells)) == DropEmpty(StripEach([""] + cells + [""]))
  {
    BoxRowSplit(VBar, cells);
  }

  lemma FramedFields(cells: seq<string>)
    requires forall q :: 0 <= q < |cells| ==> Strip(cells[q]) != []
    ensures DropEmpty(StripEach([""] + cells + [""])) == StripEach(cells)
  {
    StripEachFramed(cells);
    DropEmptyFramed(StripEach(cells));
  }

  /**
   * A row of a cluster table with at least ten cells: `nce_id` is cell 0,
   * the name cell 4, the status cell 6, and the record carries the cluster id.
   */
  lemma ClusterRow(id: string, cells: seq<string>)
    requires DataCells(cells) && |cells| >= 10
    ensures RowRecord(true, Some(id), BoxRow(VBar, cells)).Some?
    ensures var m := RowRecord(true, Some(id), BoxRow(VBar, cells)).value;
      && m.nceId == Some(Strip(cells[0]))
      && m.vendor == Strip(cells[1])
      && m.name == Strip(cells[4])
      && m.status == Strip(cells[6])
      && m.lastConnection == Strip(cells[9])
      && m.comment == (if |cells| > 10 then Strip(cells[10]) else "")
      && m.cluster == Some(id)
  {
    DataRowRecord(true, Some(id), cells);
    StripMention(cells, 4, "wbox_name");
    TrimmedCells(cells);
    ClusterCells(id, cells);
  }

  lemma ClusterCells(id: string, cells: seq<string>)
    requires |cells| >= 10 && (forall i :: 0 <= i < |cells| ==> StripEach(cells)[i] != [])
    requires StripEach(cells)[4] != "wbox_name"
    ensures RecordOf(true, Some(id), StripEach(cells)).Some?
    ensures var m := RecordOf(true, Some(id), StripEach(cells)).value;
      && m.nceId == Some(Strip(cells[0])) && m.vendor == Strip(cells[1]) && m.name == Strip(cells[4])
      && m.status == Strip(cells[6]) && m.lastConnection == Strip(cells[9])
      && m.comment == (if |cells| > 10 then Strip(cells[10]) else "") && m.cluster == Some(id)
  {
    var parts := StripEach(cells);
    ClusterRecord(id, parts);
    ClusterFields(id, parts);
  }

  /**
   * A row of the standalone table with at least six cells: the name is
   * cell 3, the status cell 5, there is no cluster, and missing trailing
   * columns read as empty.
   */
  lemma StandaloneRow(cells: seq<string>)
    requires DataCells(cells) && |cells| >= 6
    ensures RowRecord(false, None, BoxRow(VBar, cells)).Some?
    ensures var m := RowRecord(false, None, BoxRow(VBar, cells)).value;
      && m.nceId == None
      && m.vendor == Strip(cells[0])
      && m.name == Strip(cells[3])
      && m.status == Strip(cells[5])
      && m.borrowUptime == (if |cells| > 6 then Strip(cells[6]) else "")
      && m.comment == (if |cells| > 9 then Strip(cells[9]) else "")
      && m.cluster == None
  {
    DataRowRecord(false, None, cells);
    StripMention(cells, 3, "wbox_name");
    TrimmedCells(cells);
    StandaloneCells(cells);
  }

  lemma StandaloneCells(cells: seq<string>)
    requires |cells| >= 6 && (forall i :: 0 <= i < |cells| ==> StripEach(cells)[i] != [])
    requires StripEach(cells)[3] != "wbox_name"
    ensures RecordOf(false, None, StripEach(cells)).Some?
    ensures var m := RecordOf(false, None, StripEach(cells)).value;
      && m.nceId == None && m.vendor == Strip(cells[0]) && m.name == Strip(cells[3])
      && m.status == Strip(cells[5]) && m.borrowUptime == (if |cells| > 6 then Strip(cells[6]) else "")
      && m.comment == (if |cells| > 9 then Strip(cells[9]) else "") && m.cluster == None
  {
    var parts := StripEach(cells);
    StandaloneRecord(parts);
    StandaloneFields(parts);
  }

  /** A data row yields the record of its trimmed cells. */
  lemma DataRowRecord(isClusterTable: bool, cluster: Option<string>, cells: seq<string>)
    requires isClusterTable ==> cluster.Some?
    requires DataCells(cells)
    ensures RowRecord(isClusterTable, cluster, BoxRow(VBar, cells)) == RecordOf(isClusterTable, cluster, StripEach(cells))
  {
    DataRow(Start, cells);
  }

  lemma TrimmedCells(cells: seq<string>)
    requires forall q :: 0 <= q < |cells| ==> Strip(cells[q]) != []
    ensures forall i :: 0 <= i < |cells| ==> StripEach(cells)[i] != []
  {
  }

  lemma ClusterRecord(id: string, parts: seq<string>)
    requires |parts| >= 10 && (forall i :: 0 <= i < |parts| ==> parts[i] != []) && parts[4] != "wbox_name"
    ensures RecordOf(true, Some(id), parts) == Some(MakeMachine(Some(parts[0]), parts[1..], Some(id)))
  {
  }

  lemma ClusterFields(id: string, parts: seq<string>)
    requires |parts| >= 10
    ensures var m := MakeMachine(Some(parts[0]), parts[1..], Some(id));
      && m.nceId == Some(parts[0]) && m.vendor == parts[1] && m.name == parts[4]
      && m.status == parts[6] && m.lastConnection == parts[9]
      && m.comment == (if |parts| > 10 then parts[10] else "") && m.cluster == Some(id)
  {
  }

  lemma StandaloneFields(parts: seq<string>)
    requires |parts| >= 6
    ensures var m := MakeMachine(None, parts, None);
      && m.nceId == None && m.vendor == parts[0] && m.name == parts[3] && m.status == parts[5]
      && m.borrowUptime == (if |parts| > 6 then parts[6] else "")
      && m.comment == (if |parts| > 9 then parts[9] else "") && m.cluster == None
  {
  }

  lemma StandaloneRecord(parts: seq<string>)
    requires |parts| >= 6 && (forall i :: 0 <= i < |parts| ==> parts[i] != []) && parts[3] != "wbox_name"
    ensures RecordOf(false, None, parts) == Some(MakeMachine(None, parts, None))
  {
  }

  /** In a cluster table a row needs ten cells, and any row needs six. */
  lemma ShortRow(isClusterTable: bool, cluster: Option<string>, cells: seq<string>)
    requires isClusterTable ==> cluster.Some?
    requires DataCells(cells) && |cells| < (if isClusterTable then 10 else 6)
    ensures RowRecord(isClusterTable, cluster, BoxRow(VBar, cells)).None?
  {
    DataRow(Start, cells);
  }

  /** A data row inside a row section contributes exactly the record `RowRecord` makes of it. */
  lemma EmitDataRow(sc: Scan, cells: seq<string>)
    requires Consistent(sc) && InRowSection(sc) && DataCells(cells)
    ensures var r := RowRecord(sc.isClusterTable, sc.cluster, BoxRow(VBar, cells));
      Emit(sc, BoxRow(VBar, cells)) == if r.Some? then [r.value] else []
  {
    DataRow(sc, cells);
    EmitRow(sc, BoxRow(VBar, cells));
  }

  lemma EmitRow(sc: Scan, line: string)
    requires Consistent(sc) && InRowSection(sc) && Marker(sc, line).None?
    ensures var r := RowRecord(sc.isClusterTable, sc.cluster, line);
      Emit(sc, line) == if r.Some? then [r.value] else []
  {
  }

  /** Under the "Stand alone" heading a data row yields a record without a cluster. */
  lemma RowUnderStandAlone(heading: string, cells: seq<string>)
    requires DataCells(cells) && |cells| >= 6
    requires Contains(heading, "Stand alone")
    ensures |ParseFrom(Start, [heading, BoxRow(VBar, cells)])| == 1
    ensures ParseFrom(Start, [heading, BoxRow(VBar, cells)])[0].cluster == None
    ensures ParseFrom(Start, [heading, BoxRow(VBar, cells)])[0].name == Strip(cells[3])
  {
    var sc := Step(Start, heading);
    TwoLines(heading, BoxRow(VBar, cells));
    assert sc == Scan(Some("standalone"), None, false);
    EmitDataRow(sc, cells);
    StandaloneRow(cells);
  }

  /** Under a "Cluster <id>" heading the same row is read with an nce id and tagged with the id. */
  lemma RowUnderCluster(heading: string, cells: seq<string>)
    requires DataCells(cells) && |cells| >= 10
    requires OpensCluster(heading)
    ensures |ParseFrom(Start, [heading, BoxRow(VBar, cells)])| == 1
    ensures ParseFrom(Start, [heading, BoxRow(VBar, cells)])[0].cluster == ClusterId(heading)
    ensures ParseFrom(Start, [heading, BoxRow(VBar, cells)])[0].nceId == Some(Strip(cells[0]))
    ensures ParseFrom(Start, [heading, BoxRow(VBar, cells)])[0].name == Strip(cells[4])
  {
    var sc := Step(Start, heading);
    TwoLines(heading, BoxRow(VBar, cells));
    var id := ClusterId(heading).value;
    assert sc == Scan(Some("cluster_" + id), Some(id), true);
    assert ("cluster_" + id)[..8] == "cluster_";
    EmitDataRow(sc, cells);
    ClusterRow(id, cells);
  }

  /** The records of a heading followed by one line. */
  lemma TwoLines(heading: string, line: string)
    ensures ScanFrom(Start, [heading]) == Step(Start, heading)
    ensures ParseFrom(Start, [heading, line]) == Emit(Step(Start, heading), line)
  {
    FoldStep(Start, [heading], 0);
    FoldStep(Start, [heading, line], 1);
    assert [heading][..0] == [] && [heading][..1] == [heading];
    assert [heading, line][..1] == [heading] && [heading, line][..2] == [heading, line];
  }

  /** A cluster heading with an id that no earlier marker test catches. */
  predicate OpensCluster(line: string) {
    !Contains(line, "Stand alone") && Contains(line, "Cluster") && !Contains(line, HRule)
    && ClusterId(line).Some?
  }

  // ---------------------------------------------------------------------
  // Status classification
  // ---------------------------------------------------------------------

  lemma AvailableStatus()
    ensures StateOf("Available") == Available && BorrowerOf("Available") == None
  {
    assert Lower("Available") == "available";
    assert OccursAt("available", "available", 0);
  }

  lemma OfflineStatus()
    ensures StateOf("No Ping") == Offline && BorrowerOf("No Ping") == None
  {
    assert Lower("No Ping") == "no ping";
    assert OccursAt("no ping", "no ping", 0);
    AbsentByChar("no ping", "available", 1);
  }

  lemma DeployedStatus()
    ensures StateOf("deploy") == Deployed && BorrowerOf("deploy") == None
  {
    assert Lower("deploy") == "deploy";
    assert OccursAt("deploy", "deploy", 0);
    AbsentByChar("deploy", "available", 1);
    AbsentByChar("deploy", "no ping", 0);
    AbsentByChar("deploy", "no ssh", 0);
    AbsentByChar("deploy", "no cheetah", 0);
    AbsentByChar("deploy", "(", 0);
  }

  /** A status with a parenthesis, such as a deploy mark, is never read as a plain deploy. */
  lemma ParenthesisIsNotDeployed(status: string)
    requires Contains(status, "(")
    ensures StateOf(status) != Deployed
  {
    var i := IndexOf(status, "(").value;
    assert status[i..i + 1] == "(";
    assert Lower(status)[i..i + 1] == "(";
    assert OccursAt(Lower(status), "(", i);
  }

  /** A bare deploy mark is a borrowed status whose borrower is the raw status. */
  lemma BareDeployMark()
    ensures StateOf("(deploy)") == Borrowed
    ensures BorrowerOf("(deploy)") == Some("(deploy)")
  {
    BareDeployBorrowed();
    DeployMarkRemoved("");
    assert "" + "(deploy)" == "(deploy)";
    assert Strip("") == "";
  }

  lemma BareDeployBorrowed()
    ensures StateOf("(deploy)") == Borrowed
  {
    var status := "(deploy)";
    assert Lower(status) == status;
    AbsentByChar(status, "no ping", 0);
    AbsentByChar(status, "no ssh", 0);
    assert OccursAt(status, "(", 0);
  }

  /**
   * A borrower's name followed by a space and the deploy mark is a borrowed
   * status whose borrower is the bare name.
   */
  lemma BorrowerOfMarkedName(name: string)
    requires name != [] && IsStripped(name) && Lacks(name, '(')
    requires !Contains(Lower(name + " (deploy)"), "available") && !Contains(Lower(name + " (deploy)"), "no ping")
    requires !Contains(Lower(name + " (deploy)"), "no ssh") && !Contains(Lower(name + " (deploy)"), "no cheetah")
    ensures StateOf(name + " (deploy)") == Borrowed
    ensures BorrowerOf(name + " (deploy)") == Some(name)
  {
    var s := name + " (deploy)";
    assert Lower(s)[|name| + 1..|name| + 2] == "(";
    assert OccursAt(Lower(s), "(", |name| + 1);
    assert StateOf(s) == Borrowed;
    assert s == (name + " ") + "(deploy)";
    DeployMarkRemoved(name + " ");
    StripPadding("", name, " ");
    assert "" + name + " " == name + " ";
    StrippedFixed(name);
  }

  /** A borrowed machine marked for deploy: "john (deploy)" is borrowed by "john". */
  lemma MarkedBorrower()
    ensures StateOf("john (deploy)") == Borrowed
    ensures BorrowerOf("john (deploy)") == Some("john")
  {
    var name := "john";
    assert name + " (deploy)" == "john (deploy)";
    MarkedNameFacts();
    BorrowerOfMarkedName(name);
  }

  lemma MarkedNameFacts()
    ensures IsStripped("john") && Lacks("john", '(')
    ensures !Contains(Lower("john" + " (deploy)"), "available") && !Contains(Lower("john" + " (deploy)"), "no ping")
    ensures !Contains(Lower("john" + " (deploy)"), "no ssh") && !Contains(Lower("john" + " (deploy)"), "no cheetah")
  {
    assert Lower("john") == "john";
    MarkedKeywordsAbsent("john");
  }

  /**
   * A name whose lower-case form has none of the letters v, g, s and c,
   * followed by the deploy mark, mentions none of the status keywords.
   */
  lemma MarkedKeywordsAbsent(name: string)
    requires Lacks(Lower(name), 'v') && Lacks(Lower(name), 'g')
    requires Lacks(Lower(name), 's') && Lacks(Lower(name), 'c')
    ensures !Contains(Lower(name + " (deploy)"), "available") && !Contains(Lower(name + " (deploy)"), "no ping")
    ensures !Contains(Lower(name + " (deploy)"), "no ssh") && !Contains(Lower(name + " (deploy)"), "no cheetah")
  {
    var mark := " (deploy)";
    var l := Lower(name + mark);
    assert Lower(mark) == mark;
    assert l == Lower(name) + mark;
    forall c | c in {'v', 'g', 's', 'c'}
      ensures Lacks(l, c)
    {
      forall i | 0 <= i < |l|
        ensures l[i] != c
      {
        if i < |name| {
          assert l[i] == Lower(name)[i];
        } else {
          assert l[i] == mark[i - |name|];
        }
      }
    }
    AbsentByChar(l, "available", 1);
    AbsentByChar(l, "no ping", 6);
    AbsentByChar(l, "no ssh", 3);
    AbsentByChar(l, "no cheetah", 3);
  }

  /** Removing the deploy mark from a name followed by the mark leaves the name. */
  lemma DeployMarkRemoved(name: string)
    requires Lacks(name, '(')
    ensures ReplaceAll(name + "(deploy)", "(deploy)", "") == name
  {
    var s := name + "(deploy)";
    assert OccursAt(s, "(deploy)", |name|);
    forall j | 0 <= j < |name| ensures !OccursAt(s, "(deploy)", j) {
      assert s[j] == name[j];
    }
    assert s[|name| + 8..] == [];
  }
}
