/**
 * The summary-table reader of webborrow/app.py (`parse_summary`): the
 * inventory tool ends its output with a double-bordered table of four
 * counts, and the reader takes the first double-barred line that reads as
 * four sensible counts.
 */
module Summary {
  import opened Wrappers
  import opened Text
  import opened Ansi
  import opened Box

  /** The four counts: total, free, taken, and taken but not in use. */
  datatype Counts = Counts(total: int, free: int, taken: int, takenNotUsed: int)

  /** What the reader returns when no line qualifies. */
  const Zeros: Counts := Counts(0, 0, 0, 0)

  /** The value of a non-empty run of ASCII digits, read most significant first. */
  function DigitsValue(s: string): (n: nat)
    requires IsDigits(s)
    decreases |s|
  {
    var last := (s[|s| - 1] as int - '0' as int);
    if |s| == 1 then last else DigitsValue(s[..|s| - 1]) * 10 + last
  }

  /**
   * `int(p)` on an already trimmed field: an optional sign followed by ASCII
   * digits; anything else is the `ValueError` case.
   */
  function ParseInt(s: string): (r: Option<int>)
    ensures r.Some? && s != [] && s[0] != '-' ==> r.value >= 0
  {
    if |s| > 0 && (s[0] == '-' || s[0] == '+') then
      if IsDigits(s[1..]) then
        Some(if s[0] == '-' then -(DigitsValue(s[1..]) as int) else DigitsValue(s[1..]))
      else None
    else if IsDigits(s) then Some(DigitsValue(s))
    else None
  }

  /** Decimal digits of a natural number, without leading zeros. */
  function NatToString(n: nat): (s: string)
    ensures IsDigits(s)
  {
    var d := ['0' + (n % 10) as char];
    if n < 10 then d else NatToString(n / 10) + d
  }

  lemma {:induction false} NatToStringRoundTrip(n: nat)
    ensures DigitsValue(NatToString(n)) == n
  {
    if n >= 10 {
      NatToStringRoundTrip(n / 10);
      var s := NatToString(n);
      assert s[..|s| - 1] == NatToString(n / 10);
    }
  }

  /** Reading back a count written in decimal gives the count. */
  lemma ParseNatToString(n: nat)
    ensures ParseInt(NatToString(n)) == Some(n)
  {
    NatToStringRoundTrip(n);
  }

  /** The counts a line holds, if it is a summary row that passes every check. */
  function SummaryOf(line: string): (r: Option<Counts>)
    ensures r.Some? ==> Contains(line, DoubleBar) && !Contains(line, DoubleRule)
    ensures r.Some? ==> Sensible(r.value)
  {
    if !Contains(line, DoubleBar) || Contains(line, DoubleRule) then None
    else CountsOf(DropEmpty(StripEach(Split(line, DoubleBar))))
  }

  /** Exactly four fields, each an integer, none negative, total at least free. */
  function CountsOf(parts: seq<string>): (r: Option<Counts>)
    ensures r.Some? ==> Sensible(r.value)
  {
    if |parts| != 4 then None
    else
      match (ParseInt(parts[0]), ParseInt(parts[1]), ParseInt(parts[2]), ParseInt(parts[3]))
      case (Some(a), Some(b), Some(c), Some(d)) =>
        if a >= 0 && b >= 0 && c >= 0 && d >= 0 && a >= b then Some(Counts(a, b, c, d)) else None
      case _ => None
  }

  /** Non-negative counts with at most as many free machines as machines. */
  predicate Sensible(c: Counts) {
    c.total >= 0 && c.free >= 0 && c.taken >= 0 && c.takenNotUsed >= 0 && c.total >= c.free
  }

  /** The counts of the first qualifying line, or all zeros. */
  function FirstSummary(lines: seq<string>): (c: Counts)
    ensures Sensible(c)
    decreases |lines|
  {
    if lines == [] then Zeros
    else match SummaryOf(lines[0])
      case Some(c) => c
      case None => FirstSummary(lines[1..])
  }

  /** The counts the reader reports for a whole output. */
  function OutputSummary(output: string): Counts {
    FirstSummary(Lines(StripAnsi(output)))
  }

  /**
   * `parse_summary`: the first qualifying line, or all zeros. Lines that do
   * not qualify are skipped and the scan goes on.
   */
  method ParseSummary(output: string) returns (summary: Counts)
    ensures summary == OutputSummary(output)
  {
    var lines := Lines(StripAnsi(output));
    summary := Zeros;
    var i := 0;
    while i < |lines|
      invariant 0 <= i <= |lines|
      invariant summary == Zeros
      invariant FirstSummary(lines[i..]) == FirstSummary(lines)
    {
      var found := SummaryOf(lines[i]);
      if found.Some? {
        summary := found.value;
        return;
      }
      assert lines[i..][1..] == lines[i + 1..];
      i := i + 1;
    }
  }

  /** With no qualifying line the reader reports all zeros. */
  lemma {:induction false} NoSummaryGivesZeros(lines: seq<string>)
    requires forall i :: 0 <= i < |lines| ==> SummaryOf(lines[i]).None?
    ensures FirstSummary(lines) == Zeros
    decreases |lines|
  {
    if lines != [] {
      assert forall i :: 0 <= i < |lines[1..]| ==> lines[1..][i] == lines[i + 1];
      NoSummaryGivesZeros(lines[1..]);
    }
  }

  /** The reader reports the first qualifying line; later ones are ignored. */
  lemma {:induction false} FirstQualifyingLine(lines: seq<string>, k: nat)
    requires k < |lines| && SummaryOf(lines[k]).Some?
    requires forall j :: 0 <= j < k ==> SummaryOf(lines[j]).None?
    ensures FirstSummary(lines) == SummaryOf(lines[k]).value
    decreases k
  {
    if k > 0 {
      var rest := lines[1..];
      assert SummaryOf(lines[0]).None?;
      forall j | 0 <= j < k - 1 ensures SummaryOf(rest[j]).None? {
        assert rest[j] == lines[j + 1];
      }
      assert rest[k - 1] == lines[k];
      FirstQualifyingLine(rest, k - 1);
    }
  }

  /** The four cells of a drawn summary row. */
  function CountCells(c: Counts): seq<string>
    requires Sensible(c)
  {
    [NatToString(c.total), NatToString(c.free), NatToString(c.taken), NatToString(c.takenNotUsed)]
  }

  /** A summary row the inventory tool draws: four counts between double bars. */
  function SummaryRow(c: Counts): string
    requires Sensible(c)
  {
    BoxRow(DoubleBar, CountCells(c))
  }

  /** Reading a drawn summary row gives back its counts. */
  lemma SummaryRowRoundTrip(c: Counts)
    requires Sensible(c)
    ensures SummaryOf(SummaryRow(c)) == Some(c)
  {
    var cells := CountCells(c);
    CountCellsPlain(c);
    SummaryRowFrame(cells);
    SummaryRowFields(cells);
    SummaryOfFields(SummaryRow(c), c);
  }

  lemma CountCellsPlain(c: Counts)
    requires Sensible(c)
    ensures PlainCells(CountCells(c))
    ensures forall q :: 0 <= q < 4 ==> CountCells(c)[q] != [] && Strip(CountCells(c)[q]) == CountCells(c)[q]
  {
    var cells := CountCells(c);
    forall q | 0 <= q < 4 ensures cells[q] != [] && PlainCell(cells[q]) && Strip(cells[q]) == cells[q] {
      DigitCell(cells[q]);
    }
  }

  /** A decimal numeral is a plain cell that stripping leaves alone. */
  lemma DigitCell(s: string)
    requires IsDigits(s)
    ensures s != [] && PlainCell(s) && Strip(s) == s
  {
    assert !IsSpace(s[0]) && !IsSpace(s[|s| - 1]);
    StrippedFixed(s);
  }

  lemma SummaryOfFields(line: string, c: Counts)
    requires Sensible(c)
    requires Contains(line, DoubleBar) && !Contains(line, DoubleRule)
    requires DropEmpty(StripEach(Split(line, DoubleBar))) == CountCells(c)
    ensures SummaryOf(line) == Some(c)
  {
    CountCellsRead(c);
  }

  /** The cells of a drawn summary row read back as its counts. */
  lemma CountCellsRead(c: Counts)
    requires Sensible(c)
    ensures CountsOf(CountCells(c)) == Some(c)
  {
    ParseNatToString(c.total);
    ParseNatToString(c.free);
    ParseNatToString(c.taken);
    ParseNatToString(c.takenNotUsed);
  }

  lemma SummaryRowFrame(cells: seq<string>)
    requires cells != [] && PlainCells(cells)
    ensures Contains(BoxRow(DoubleBar, cells), DoubleBar)
    ensures !Contains(BoxRow(DoubleBar, cells), DoubleRule)
  {
    assert OccursAt(BoxRow(DoubleBar, cells), DoubleBar, 0);
    BoxRowLacksOtherSeparators(DoubleBar, cells, DoubleRule);
  }

  lemma SummaryRowFields(cells: seq<string>)
    requires cells != [] && PlainCells(cells)
    requires forall q :: 0 <= q < |cells| ==> cells[q] != [] && Strip(cells[q]) == cells[q]
    ensures DropEmpty(StripEach(Split(BoxRow(DoubleBar, cells), DoubleBar))) == cells
  {
    SplitSummaryRow(cells);
    assert StripEach(cells) == cells;
    DropEmptyFramed(StripEach(cells));
  }

  lemma SplitSummaryRow(cells: seq<string>)
    requires cells != [] && PlainCells(cells)
    ensures StripEach(Split(BoxRow(DoubleBar, cells), DoubleBar)) == [""] + StripEach(cells) + [""]
  {
    BoxRowSplit(DoubleBar, cells);
    StripEachFramed(cells);
  }

  /** Lines before a drawn summary row that do not qualify leave that row to be reported. */
  lemma {:induction false} FirstSummaryWins(before: seq<string>, c: Counts, after: seq<string>)
    requires Sensible(c)
    requires forall i :: 0 <= i < |before| ==> SummaryOf(before[i]).None?
    ensures FirstSummary(before + [SummaryRow(c)] + after) == c
    decreases |before|
  {
    if before == [] {
      SummaryRowRoundTrip(c);
      assert (before + [SummaryRow(c)] + after)[0] == SummaryRow(c);
    } else {
      assert (before + [SummaryRow(c)] + after)[1..] == before[1..] + [SummaryRow(c)] + after;
      FirstSummaryWins(before[1..], c, after);
    }
  }
}
