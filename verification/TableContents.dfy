/** A written row still holds its cells: each can be read back out of its column, up to white space. */
module TableContents {
  import opened Text
  import opened Wrapping
  import opened WrappingLaws
  import opened ColumnWidths
  import opened TableText
  import opened TableLaws

  /** Where column `i` starts on every line. */
  function Offset(widths: seq<nat>, i: nat): int
    requires i <= |widths|
  {
    2 + 3 * i + Sum(widths[..i])
  }

  lemma {:induction false} SumOfPrefix(widths: seq<nat>, i: nat, n: nat)
    requires i <= n <= |widths|
    ensures 0 <= Sum(widths[..i]) <= Sum(widths[..n])
  {
    if n > i {
      SumOfPrefix(widths, i, n - 1);
      assert widths[..n][..n - 1] == widths[..n - 1];
    } else if i > 0 {
      SumOfPrefix(widths, i - 1, n - 1);
      assert widths[..n][..n - 1] == widths[..n - 1];
    }
  }

  ghost predicate Shows(text: string, offset: int, width: nat, cell: string) {
    0 <= offset && offset + width <= |text| && text[offset..offset + width] == cell
  }

  lemma ShowsBefore(text: string, more: string, offset: int, width: nat, cell: string)
    requires Shows(text, offset, width, cell)
    ensures Shows(text + more, offset, width, cell)
  {
    assert (text + more)[offset..offset + width] == text[offset..offset + width];
  }

  lemma ShowsLast(text: string, cell: string)
    ensures Shows(text + (" " + cell + " |"), |text| + 1, |cell|, cell)
  {
    assert (text + (" " + cell + " |"))[|text| + 1..|text| + 1 + |cell|] == cell;
  }

  lemma {:induction false} CellOnLine(cells: seq<seq<string>>, widths: seq<nat>, alignments: seq<Alignment>, line: nat, i: nat, n: nat)
    requires CellsFit(cells, widths) && i < n <= |widths|
    ensures Shows(LineUpTo(cells, widths, alignments, line, n), Offset(widths, i), widths[i],
                  CellText(cells[i], widths[i], AlignmentAt(alignments, i), line))
  {
    var before := LineUpTo(cells, widths, alignments, line, n - 1);
    var cell := CellText(cells[n - 1], widths[n - 1], AlignmentAt(alignments, n - 1), line);
    if i == n - 1 {
      LineIsGood(cells, widths, alignments, line, n - 1);
      CellTextFits(cells, widths, AlignmentAt(alignments, n - 1), line, n - 1);
      ShowsLast(before, cell);
    } else {
      CellOnLine(cells, widths, alignments, line, i, n - 1);
      ShowsBefore(before, " " + cell + " |", Offset(widths, i), widths[i],
                  CellText(cells[i], widths[i], AlignmentAt(alignments, i), line));
    }
  }

  /** The text of one column, line after line. */
  function ColumnText(lines: seq<string>, offset: nat, width: nat): string
    requires forall l :: 0 <= l < |lines| ==> offset + width <= |lines[l]|
  {
    if lines == [] then ""
    else ColumnText(lines[..|lines| - 1], offset, width) + lines[|lines| - 1][offset..offset + width]
  }

  lemma PaddingIsBlank(value: string, width: int, alignment: Alignment)
    ensures Solid(AlignTableCell(value, width, alignment)) == Solid(value)
  {
    if width > |value| {
      var padding := Repeat(' ', width - |value|);
      SolidBlank(padding);
      SolidAppend(value, padding);
      SolidAppend(padding, value);
    }
  }

  lemma {:induction false} SolidBlank(s: string)
    requires forall i :: 0 <= i < |s| ==> IsSpace(s[i])
    ensures Solid(s) == ""
  {
    if s == "" {
    } else {
      SolidBlank(s[1..]);
    }
  }

  /** The first `n` pieces of a cell, as far as there are any. */
  function Shown(pieces: seq<string>, n: nat): string {
    if n == 0 then "" else Shown(pieces, n - 1) + if n <= |pieces| then pieces[n - 1] else ""
  }

  lemma {:induction false} ShownAll(pieces: seq<string>, n: nat)
    ensures n >= |pieces| ==> Shown(pieces, n) == Concat(pieces)
    ensures n < |pieces| ==> Shown(pieces, n) == Concat(pieces[..n])
  {
    if n > 0 {
      ShownAll(pieces, n - 1);
      if n <= |pieces| {
        assert pieces[..n] == pieces[..n - 1] + [pieces[n - 1]];
        ConcatAppend(pieces[..n - 1], [pieces[n - 1]]);
        assert Concat([pieces[n - 1]]) == pieces[n - 1] + "" == pieces[n - 1];
        if n == |pieces| { assert pieces[..n] == pieces; }
      }
    } else {
      if |pieces| > 0 { assert pieces[..0] == []; }
    }
  }

  ghost predicate ColumnHolds(lines: seq<string>, offset: int, width: nat, text: string) {
    && 0 <= offset
    && (forall l :: 0 <= l < |lines| ==> offset + width <= |lines[l]|)
    && Solid(ColumnText(lines, offset, width)) == Solid(text)
  }

  lemma ColumnSnoc(lines: seq<string>, last: string, offset: int, width: nat, text: string, cell: string, piece: string)
    requires ColumnHolds(lines, offset, width, text) && Shows(last, offset, width, cell) && Solid(cell) == Solid(piece)
    ensures ColumnHolds(lines + [last], offset, width, text + piece)
  {
    SolidAppend(ColumnText(lines, offset, width), cell);
    SolidAppend(text, piece);
    assert (lines + [last])[..|lines|] == lines;
  }

  lemma ColumnStep(cells: seq<seq<string>>, widths: seq<nat>, alignments: seq<Alignment>, i: nat, n: nat)
    requires CellsFit(cells, widths) && i < |widths|
    requires ColumnHolds(RowLines(cells, widths, alignments, n), Offset(widths, i), widths[i], Shown(cells[i], n))
    ensures ColumnHolds(RowLines(cells, widths, alignments, n + 1), Offset(widths, i), widths[i], Shown(cells[i], n + 1))
  {
    var lines, last := RowLines(cells, widths, alignments, n), LineUpTo(cells, widths, alignments, n, |widths|);
    var cell, piece := CellText(cells[i], widths[i], AlignmentAt(alignments, i), n), if n < |cells[i]| then cells[i][n] else "";
    CellOnLine(cells, widths, alignments, n, i, |widths|);
    PaddingIsBlank(piece, widths[i], AlignmentAt(alignments, i));
    ColumnSnoc(lines, last, Offset(widths, i), widths[i], Shown(cells[i], n), cell, piece);
  }

  lemma {:induction false} ColumnShows(cells: seq<seq<string>>, widths: seq<nat>, alignments: seq<Alignment>, i: nat, n: nat)
    requires CellsFit(cells, widths) && i < |widths|
    ensures ColumnHolds(RowLines(cells, widths, alignments, n), Offset(widths, i), widths[i], Shown(cells[i], n))
  {
    if n > 0 {
      ColumnShows(cells, widths, alignments, i, n - 1);
      ColumnStep(cells, widths, alignments, i, n - 1);
    } else {
      SumOfPrefix(widths, i, i);
    }
  }

  lemma {:induction false} HeightCovers(cells: seq<seq<string>>, i: nat)
    requires i < |cells|
    ensures |cells[i]| <= Height(cells)
  {
    if i < |cells| - 1 {
      HeightCovers(cells[..|cells| - 1], i);
    }
  }

  lemma {:induction false} WrappedAt(row: seq<string>, widths: seq<nat>, i: nat, n: nat)
    requires i < n <= |widths|
    ensures Wrapped(row, widths, n)[i] == WrapCell(CellValue(row, i), widths[i])
  {
    var before, last := Wrapped(row, widths, n - 1), WrapCell(CellValue(row, n - 1), widths[n - 1]);
    assert Wrapped(row, widths, n) == before + [last];
    if i == n - 1 {
      assert (before + [last])[n - 1] == last;
    } else {
      WrappedAt(row, widths, i, n - 1);
      assert (before + [last])[i] == before[i];
    }
  }

  /** Reading a column of positive width down a written row gives the cell back, white space aside. */
  lemma {:induction false} CellSurvives(row: seq<string>, widths: seq<nat>, alignments: seq<Alignment>, i: nat)
    requires i < |widths| && widths[i] >= 1
    ensures ColumnHolds(Row(row, widths, alignments), Offset(widths, i), widths[i], if i < |row| then row[i] else "")
  {
    var cells := Wrapped(row, widths, |widths|);
    WrappedFits(row, widths, |widths|);
    assert widths[..|widths|] == widths;
    ColumnShows(cells, widths, alignments, i, Height(cells));
    HeightCovers(cells, i);
    ShownAll(cells[i], Height(cells));
    WrappedAt(row, widths, i, |widths|);
    CellKeepsSolid(CellValue(row, i), widths[i]);
  }
}
