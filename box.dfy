/**
 * The box-drawing strings webborrow/app.py matches on. The file spells each
 * glyph as its UTF-8 bytes read back as Mac Roman text, so every one of them
 * is a three-character string starting with U+201A; the parser treats them
 * as opaque separators and matches whole strings.
 */
module Box {
  import opened Text

  const LeadChar: char := '\U{201A}'

  /** Light vertical bar, the column separator of the machine tables. */
  const VBar: string := "\U{201A}\U{EE}\U{C7}"
  /** Light horizontal rule. */
  const HRule: string := "\U{201A}\U{EE}\U{C4}"
  /** Light top-left corner. */
  const TopLeft: string := "\U{201A}\U{EE}\U{E5}"
  /** Light bottom-left corner. */
  const BottomLeft: string := "\U{201A}\U{EE}\U{EE}"
  /** Light left tee. */
  const LeftTee: string := "\U{201A}\U{EE}\U{FA}"
  /** Double horizontal rule. */
  const DoubleRule: string := "\U{201A}\U{EF}\U{EA}"
  /** Double vertical bar, the column separator of the summary table. */
  const DoubleBar: string := "\U{201A}\U{EF}\U{EB}"

  /** `text.split('\n')`. */
  function Lines(text: string): (r: seq<string>)
    ensures |r| >= 1 && Join("\n", r) == text
  {
    Split(text, "\n")
  }

  /** A table row as the inventory tool draws it: the cells between bars. */
  function BoxRow(bar: string, cells: seq<string>): string {
    bar + Join(bar, cells) + bar
  }

  /** A cell a separator built from `LeadChar` cannot cut or extend. */
  predicate PlainCell(c: string) {
    Lacks(c, LeadChar)
  }

  /** A column separator: `LeadChar` followed by two other characters. */
  predicate IsBar(bar: string) {
    |bar| == 3 && bar[0] == LeadChar && bar[1] != LeadChar && bar[2] != LeadChar
  }

  predicate PlainCells(cells: seq<string>) {
    forall q :: 0 <= q < |cells| ==> PlainCell(cells[q])
  }

  /** Some cell of the row mentions `w`. */
  predicate MentionedIn(cells: seq<string>, w: string) {
    exists q :: 0 <= q < |cells| && Contains(cells[q], w)
  }

  /** A row is the bar-join of its cells between two empty edge pieces. */
  lemma BoxRowIsJoin(bar: string, cells: seq<string>)
    requires cells != []
    ensures BoxRow(bar, cells) == Join(bar, [""] + cells + [""])
  {
    JoinSnoc(bar, [""] + cells, "");
    JoinCons(bar, "", cells);
  }

  /** Splitting a row on its bar gives back the cells, with an empty piece at each edge. */
  lemma BoxRowSplit(bar: string, cells: seq<string>)
    requires IsBar(bar) && cells != [] && PlainCells(cells)
    ensures Split(BoxRow(bar, cells), bar) == [""] + cells + [""]
  {
    var parts := [""] + cells + [""];
    BoxRowIsJoin(bar, cells);
    forall q, j | 0 <= q < |parts| && 0 <= j < |parts[q]|
      ensures parts[q][j] != bar[0]
    {
      assert parts[q] == cells[q - 1];
    }
    SplitJoin(parts, bar, 0);
  }

  /** A row of plain cells holds no separator string other than its own bar. */
  lemma BoxRowLacksOtherSeparators(bar: string, cells: seq<string>, other: string)
    requires IsBar(bar) && cells != [] && PlainCells(cells)
    requires |other| == 3 && other[0] == LeadChar && other != bar
    ensures !Contains(BoxRow(bar, cells), other)
  {
    var parts := [""] + cells + [""];
    BoxRowIsJoin(bar, cells);
    var s := BoxRow(bar, cells);
    forall q | 0 <= q < |parts|
      ensures Lacks(parts[q], bar[0])
    {
      if 1 <= q <= |cells| {
        assert parts[q] == cells[q - 1];
      }
    }
    forall i ensures !OccursAt(s, other, i) {
      if 0 <= i < |s| {
        SeparatorAnchored(bar, parts, i);
        if s[i] == bar[0] {
          assert s[i..i + 3] == bar;
        }
      }
    }
  }

  /** A word sharing no character with the bar occurs in a row only inside a cell. */
  lemma BoxRowMention(bar: string, cells: seq<string>, w: string)
    requires cells != [] && bar != [] && w != [] && Disjoint(w, bar)
    ensures Contains(BoxRow(bar, cells), w) ==> MentionedIn(cells, w)
  {
    var parts := [""] + cells + [""];
    BoxRowIsJoin(bar, cells);
    if Contains(BoxRow(bar, cells), w) {
      ContainsOfJoin(bar, parts, w);
      var q :| 0 <= q < |parts| && Contains(parts[q], w);
      assert IndexOf("", w).None?;
      assert parts[q] == cells[q - 1];
    }
  }
}
