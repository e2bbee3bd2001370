/** What a written table looks like. */
module TableLaws {
  import opened Text
  import opened Wrapping
  import opened WrappingLaws
  import opened ColumnWidths
  import opened CliffWidths
  import opened TableText

  // ---------- every line is as wide as the table ----------

  ghost predicate GoodLine(line: string, first: char, width: int) {
    |line| == width && line != "" && line[0] == first && '\n' !in line
  }

  lemma {:induction false} BorderIsGood(widths: seq<nat>, n: nat)
    requires n <= |widths|
    ensures GoodLine(BorderUpTo(widths, n), '+', 1 + 3 * n + Sum(widths[..n]))
  {
    if n == 0 {
    } else {
      BorderIsGood(widths, n - 1);
      assert widths[..n][..n - 1] == widths[..n - 1];
    }
  }

  /** Each piece fits its column and holds no newline. */
  ghost predicate PiecesWithin(pieces: seq<string>, width: nat) {
    forall k :: 0 <= k < |pieces| ==> |pieces[k]| <= width && '\n' !in pieces[k]
  }

  ghost predicate CellsFit(cells: seq<seq<string>>, widths: seq<nat>) {
    |cells| == |widths| && forall i :: 0 <= i < |cells| ==> PiecesWithin(cells[i], widths[i])
  }

  lemma CellTextFits(cells: seq<seq<string>>, widths: seq<nat>, alignment: Alignment, line: nat, i: nat)
    requires CellsFit(cells, widths) && i < |widths|
    ensures |CellText(cells[i], widths[i], alignment, line)| == widths[i]
    ensures '\n' !in CellText(cells[i], widths[i], alignment, line)
  {
  }

  lemma {:induction false} LineIsGood(cells: seq<seq<string>>, widths: seq<nat>, alignments: seq<Alignment>, line: nat, n: nat)
    requires CellsFit(cells, widths) && n <= |widths|
    ensures GoodLine(LineUpTo(cells, widths, alignments, line, n), '|', 1 + 3 * n + Sum(widths[..n]))
  {
    if n == 0 {
    } else {
      LineIsGood(cells, widths, alignments, line, n - 1);
      CellTextFits(cells, widths, AlignmentAt(alignments, n - 1), line, n - 1);
      assert widths[..n][..n - 1] == widths[..n - 1];
    }
  }

  ghost predicate AllGood(lines: seq<string>, width: int) {
    forall l :: 0 <= l < |lines| ==> GoodLine(lines[l], '|', width)
  }

  lemma AppendGood(p: seq<string>, q: seq<string>, width: int)
    requires AllGood(p, width) && AllGood(q, width)
    ensures AllGood(p + q, width)
  {
  }

  lemma {:induction false} RowLinesAreGood(cells: seq<seq<string>>, widths: seq<nat>, alignments: seq<Alignment>, n: nat)
    requires CellsFit(cells, widths)
    ensures AllGood(RowLines(cells, widths, alignments, n), DisplayWidth(widths))
  {
    if n == 0 {
    } else {
      RowLinesAreGood(cells, widths, alignments, n - 1);
      LineIsGood(cells, widths, alignments, n - 1, |widths|);
      assert widths[..|widths|] == widths;
    }
  }

  lemma DivideComesFromLine(style: Style, line: string, width: nat, c: char)
    ensures c in Divide(style, line, width).0 ==> c in line
    ensures c in TrimLeft(Divide(style, line, width).1) ==> c in line
  {
    TrimLeftIsSuffix(Divide(style, line, width).1);
  }

  lemma {:induction false} PiecesComeFromLine(style: Style, line: string, width: nat, p: string, c: char)
    requires width >= 1 && p in Pieces(style, line, width) && c in p
    ensures c in line
    decreases |line|
  {
    if |line| <= width {
      assert p == line;
    } else {
      var (head, tail) := Divide(style, line, width);
      DivideComesFromLine(style, line, width, c);
      if p != head {
        PiecesComeFromLine(style, TrimLeft(tail), width, p, c);
      }
    }
  }

  lemma {:induction false} WrapLinesComeFromLines(style: Style, lines: seq<string>, width: nat, p: string, c: char)
    requires width >= 1 && p in WrapLines(style, lines, width) && c in p
    ensures exists l :: l in lines && c in l
  {
    if p in WrapLine(style, lines[0], width) {
      PiecesComeFromLine(style, TrimRight(lines[0]), width, p, c);
      assert lines[0] in lines && c in lines[0];
    } else {
      WrapLinesComeFromLines(style, lines[1..], width, p, c);
    }
  }

  lemma WrapCellHasNoNewline(value: string, width: nat, p: string)
    requires p in WrapCell(value, width)
    ensures '\n' !in p
  {
    if '\n' in p {
      WrapLinesComeFromLines(AtSpace, Split(NormaliseNewlines(value, ' '), '\n'), width, p, '\n');
    }
  }

  lemma WrapCellFits(value: string, width: nat)
    ensures PiecesWithin(WrapCell(value, width), width)
  {
    var pieces := WrapCell(value, width);
    forall k | 0 <= k < |pieces| ensures |pieces[k]| <= width && '\n' !in pieces[k] {
      CellFits(value, width, pieces[k]);
      WrapCellHasNoNewline(value, width, pieces[k]);
    }
  }

  lemma CellsFitSnoc(cells: seq<seq<string>>, widths: seq<nat>, pieces: seq<string>, width: nat)
    requires CellsFit(cells, widths) && PiecesWithin(pieces, width)
    ensures CellsFit(cells + [pieces], widths + [width])
  {
  }

  lemma WrappedNext(row: seq<string>, widths: seq<nat>, n: nat)
    requires n < |widths|
    ensures Wrapped(row, widths, n + 1) == Wrapped(row, widths, n) + [WrapCell(CellValue(row, n), widths[n])]
    ensures widths[..n + 1] == widths[..n] + [widths[n]]
  {
  }

  ghost predicate RowFits(row: seq<string>, widths: seq<nat>, n: nat)
    requires n <= |widths|
  {
    CellsFit(Wrapped(row, widths, n), widths[..n])
  }

  lemma NoCellFits(row: seq<string>, widths: seq<nat>)
    ensures RowFits(row, widths, 0)
  {
  }

  lemma OneMoreCell(row: seq<string>, widths: seq<nat>, n: nat)
    requires n < |widths| && RowFits(row, widths, n)
    ensures RowFits(row, widths, n + 1)
  {
    WrapCellFits(CellValue(row, n), widths[n]);
    CellsFitSnoc(Wrapped(row, widths, n), widths[..n], WrapCell(CellValue(row, n), widths[n]), widths[n]);
    WrappedNext(row, widths, n);
  }

  lemma WrappedFits(row: seq<string>, widths: seq<nat>, n: nat)
    requires n <= |widths|
    ensures CellsFit(Wrapped(row, widths, n), widths[..n])
  {
    NoCellFits(row, widths);
    for i := 0 to n
      invariant RowFits(row, widths, i)
    {
      OneMoreCell(row, widths, i);
    }
  }

  lemma RowIsGood(row: seq<string>, widths: seq<nat>, alignments: seq<Alignment>)
    ensures AllGood(Row(row, widths, alignments), DisplayWidth(widths))
  {
    WrappedFits(row, widths, |widths|);
    assert widths[..|widths|] == widths;
    var cells := Wrapped(row, widths, |widths|);
    RowLinesAreGood(cells, widths, alignments, Height(cells));
  }

  lemma OneMoreRow(rows: seq<seq<string>>, widths: seq<nat>, alignments: seq<Alignment>, n: nat, width: int)
    requires n < |rows| && width == DisplayWidth(widths) && AllGood(Body(rows, widths, alignments, n), width)
    ensures AllGood(Body(rows, widths, alignments, n + 1), width)
  {
    RowIsGood(rows[n], widths, alignments);
    AppendGood(Body(rows, widths, alignments, n), Row(rows[n], widths, alignments), width);
  }

  lemma {:induction false} BodyIsGood(rows: seq<seq<string>>, widths: seq<nat>, alignments: seq<Alignment>, n: nat)
    requires n <= |rows|
    ensures AllGood(Body(rows, widths, alignments, n), DisplayWidth(widths))
  {
    if n == 0 {
      assert Body(rows, widths, alignments, n) == [];
    } else {
      BodyIsGood(rows, widths, alignments, n - 1);
      OneMoreRow(rows, widths, alignments, n - 1, DisplayWidth(widths));
    }
  }

  /** All lines are `width` long; the first, the last and line `second` start with '+', the others with '|'. */
  ghost predicate IsBordered(lines: seq<string>, second: int, width: int) {
    && 0 < second < |lines| - 1
    && (forall l :: 0 <= l < |lines| ==>
          GoodLine(lines[l], if l == 0 || l == second || l == |lines| - 1 then '+' else '|', width))
  }

  /**
   * Every line of a table has exactly the table's width and no newline, the three borders start with '+', and all
   * other lines start with '|'.
   */
  lemma TableIsRectangular(headers: seq<string>, rows: seq<seq<string>>, widths: seq<nat>, alignments: seq<Alignment>)
    ensures var lines := Table(headers, rows, widths, alignments);
            IsBordered(lines, 1 + |Row(headers, widths, alignments)|, DisplayWidth(widths))
  {
    BorderIsGood(widths, |widths|);
    assert widths[..|widths|] == widths;
    RowIsGood(headers, widths, alignments);
    BodyIsGood(rows, widths, alignments, |rows|);
    Bordered(Row(headers, widths, alignments), Body(rows, widths, alignments, |rows|), Border(widths), DisplayWidth(widths));
  }

  lemma Bordered(head: seq<string>, body: seq<string>, border: string, width: int)
    requires AllGood(head, width) && AllGood(body, width) && GoodLine(border, '+', width)
    ensures IsBordered(TableLines(head, body, border), 1 + |head|, width)
  {
  }
}
