/** What a written table looks like, character by character: borders, bars, alignment, and rows in their order. */
module TableLooks {
  import opened Text
  import opened Wrapping
  import opened ColumnWidths
  import opened CliffWidths
  import opened TableText
  import opened TableLaws
  import opened TableContents

  /** Where the bar in front of column `i` stands on every line, and behind the last column. */
  function BarAt(widths: seq<nat>, i: nat): int
    requires i <= |widths|
  {
    3 * i + Sum(widths[..i])
  }

  lemma BarNext(widths: seq<nat>, i: nat)
    requires i < |widths|
    ensures BarAt(widths, i + 1) == BarAt(widths, i) + 3 + widths[i]
  {
    assert widths[..i + 1][..i] == widths[..i];
  }

  lemma {:induction false} BarsApart(widths: seq<nat>, i: nat, j: nat)
    requires i < j <= |widths|
    ensures BarAt(widths, i) < BarAt(widths, j) && BarAt(widths, i) >= 0
    decreases j
  {
    BarNext(widths, j - 1);
    if i == j - 1 {
      SumOfPrefix(widths, i, i);
    } else {
      BarsApart(widths, i, j - 1);
    }
  }

  ghost predicate IsBar(widths: seq<nat>, n: nat, k: int)
    requires n <= |widths|
  {
    exists i: nat :: i <= n && k == BarAt(widths, i)
  }

  // ---------- borders ----------

  ghost predicate BorderChars(text: string, widths: seq<nat>, n: nat)
    requires n <= |widths|
  {
    && |text| == BarAt(widths, n) + 1
    && forall k :: 0 <= k < |text| ==> text[k] == if IsBar(widths, n, k) then '+' else '-'
  }

  lemma BorderNext(before: string, text: string, widths: seq<nat>, n: nat)
    requires n < |widths| && BorderChars(before, widths, n) && text == before + (Repeat('-', widths[n] + 2) + "+")
    ensures BorderChars(text, widths, n + 1)
  {
    BarNext(widths, n);
    var dashes := Repeat('-', widths[n] + 2);
    forall k | 0 <= k < |text| ensures text[k] == if IsBar(widths, n + 1, k) then '+' else '-' {
      BarsUpTo(widths, n, k);
      if k < |before| {
        assert text[k] == before[k];
      } else if k < |text| - 1 {
        assert text[k] == dashes[k - |before|];
      } else {
        assert text[k] == '+';
      }
    }
  }

  /** One more column brings one more bar. */
  lemma BarsUpTo(widths: seq<nat>, n: nat, k: int)
    requires n < |widths|
    ensures IsBar(widths, n + 1, k) <==> IsBar(widths, n, k) || k == BarAt(widths, n + 1)
    ensures IsBar(widths, n, k) ==> k <= BarAt(widths, n) < BarAt(widths, n + 1)
  {
    BarsApart(widths, n, n + 1);
    if IsBar(widths, n, k) {
      var i: nat :| i <= n && k == BarAt(widths, i);
      if i < n {
        BarsApart(widths, i, n);
      }
    }
    if IsBar(widths, n + 1, k) && k != BarAt(widths, n + 1) {
      var i: nat :| i <= n + 1 && k == BarAt(widths, i);
      assert i <= n;
    }
  }

  lemma {:induction false} BorderUpToLooks(widths: seq<nat>, n: nat)
    requires n <= |widths|
    ensures BorderChars(BorderUpTo(widths, n), widths, n)
  {
    if n == 0 {
      assert widths[..0] == [];
      assert IsBar(widths, 0, BarAt(widths, 0));
    } else {
      BorderUpToLooks(widths, n - 1);
      BorderNext(BorderUpTo(widths, n - 1), BorderUpTo(widths, n), widths, n - 1);
    }
  }

  /** A border has a plus at every bar and dashes everywhere else. */
  lemma {:induction false} BorderLooks(widths: seq<nat>)
    ensures BorderChars(Border(widths), widths, |widths|)
  {
    BorderUpToLooks(widths, |widths|);
  }

  // ---------- bars and blanks of a line ----------

  ghost predicate LineChars(text: string, widths: seq<nat>, n: nat)
    requires n <= |widths|
  {
    && |text| == BarAt(widths, n) + 1
    && (forall i :: 0 <= i <= n ==> 0 <= BarAt(widths, i) < |text| && text[BarAt(widths, i)] == '|')
    && (forall i :: 0 <= i < n ==> BlanksAround(text, BarAt(widths, i), widths[i]))
  }

  /** Behind the bar at `bar`, and behind the cell of `width` characters, stands a blank. */
  ghost predicate BlanksAround(text: string, bar: int, width: nat) {
    0 <= bar && bar + 2 + width < |text| && text[bar + 1] == ' ' && text[bar + 2 + width] == ' '
  }

  lemma LineNext(before: string, text: string, cell: string, widths: seq<nat>, n: nat)
    requires n < |widths| && LineChars(before, widths, n) && |cell| == widths[n] && text == before + (" " + cell + " |")
    ensures LineChars(text, widths, n + 1)
  {
    BarNext(widths, n);
    var more := " " + cell + " |";
    assert |more| == widths[n] + 3 && more[0] == ' ' && more[|more| - 1] == '|' && more[|more| - 2] == ' ';
    forall i | 0 <= i <= n + 1 ensures 0 <= BarAt(widths, i) < |text| && text[BarAt(widths, i)] == '|' {
      if i <= n {
        assert text[BarAt(widths, i)] == before[BarAt(widths, i)];
      } else {
        assert text[|text| - 1] == more[|more| - 1];
      }
    }
    forall i | 0 <= i < n + 1 ensures BlanksAround(text, BarAt(widths, i), widths[i]) {
      if i < n {
        assert BlanksAround(before, BarAt(widths, i), widths[i]);
      } else {
        assert text[|before|] == more[0] && text[|before| + 1 + widths[n]] == more[1 + widths[n]];
      }
    }
  }

  lemma {:induction false} LineUpToLooks(cells: seq<seq<string>>, widths: seq<nat>, alignments: seq<Alignment>, line: nat, n: nat)
    requires CellsFit(cells, widths) && n <= |widths|
    ensures LineChars(LineUpTo(cells, widths, alignments, line, n), widths, n)
  {
    if n == 0 {
      assert widths[..0] == [];
    } else {
      LineUpToLooks(cells, widths, alignments, line, n - 1);
      CellTextFits(cells, widths, AlignmentAt(alignments, n - 1), line, n - 1);
      LineNext(LineUpTo(cells, widths, alignments, line, n - 1), LineUpTo(cells, widths, alignments, line, n),
               CellText(cells[n - 1], widths[n - 1], AlignmentAt(alignments, n - 1), line), widths, n - 1);
    }
  }

  // ---------- alignment ----------

  ghost predicate OnlySpaces(s: string) {
    forall i :: 0 <= i < |s| ==> s[i] == ' '
  }

  /** The piece at the left end of its place, or at the right end, with blanks for the rest. */
  ghost predicate StandsLeft(text: string, piece: string) {
    piece <= text && OnlySpaces(text[|piece|..])
  }

  ghost predicate StandsRight(text: string, piece: string) {
    |piece| <= |text| && text[|text| - |piece|..] == piece && OnlySpaces(text[..|text| - |piece|])
  }

  lemma AlignLooks(value: string, width: nat, alignment: Alignment)
    requires |value| <= width
    ensures |AlignTableCell(value, width, alignment)| == width
    ensures alignment == AlignLeft ==> StandsLeft(AlignTableCell(value, width, alignment), value)
    ensures alignment == AlignRight ==> StandsRight(AlignTableCell(value, width, alignment), value)
  {
    var padding := Repeat(' ', width - |value|);
    assert (value + padding)[|value|..] == padding;
    assert (padding + value)[|padding|..] == value && (padding + value)[..|padding|] == padding;
  }

  // ---------- rows ----------

  /** Line `l` of a cell's pieces, or nothing behind the last one. */
  function PieceAt(pieces: seq<string>, l: nat): string {
    if l < |pieces| then pieces[l] else ""
  }

  lemma {:induction false} HeightIs(cells: seq<seq<string>>)
    ensures forall i :: 0 <= i < |cells| ==> |cells[i]| <= Height(cells)
    ensures Height(cells) == 1 || exists i :: 0 <= i < |cells| && |cells[i]| == Height(cells)
  {
    if cells == [] {
    } else {
      var front, last := cells[..|cells| - 1], cells[|cells| - 1];
      HeightIs(front);
      if Height(cells) > 1 && |last| < Height(cells) {
        var i :| 0 <= i < |front| && |front[i]| == Height(front);
        assert cells[i] == front[i];
      }
    }
  }

  lemma {:induction false} RowLineAt(cells: seq<seq<string>>, widths: seq<nat>, alignments: seq<Alignment>, n: nat, l: nat)
    requires |widths| == |cells| && l < n
    ensures |RowLines(cells, widths, alignments, n)| == n
    ensures RowLines(cells, widths, alignments, n)[l] == LineUpTo(cells, widths, alignments, l, |widths|)
  {
    var before := RowLines(cells, widths, alignments, n - 1);
    if n == 1 {
      assert before == [];
    } else {
      RowLineAt(cells, widths, alignments, n - 1, if l < n - 1 then l else 0);
    }
  }

  /** What one line of a row shows. */
  ghost predicate LineLooks(text: string, row: seq<string>, widths: seq<nat>, alignments: seq<Alignment>, l: nat) {
    && LineChars(text, widths, |widths|)
    && (forall i :: 0 <= i < |widths| ==> CellLooks(text, row, widths, alignments, l, i))
  }

  /** In column `i`: line `l` of the wrapped cell (an empty one if the row is too short), right-aligned when asked, else left. */
  ghost predicate CellLooks(text: string, row: seq<string>, widths: seq<nat>, alignments: seq<Alignment>, l: nat, i: nat)
    requires i < |widths|
  {
    var piece := PieceAt(WrapCell(if i < |row| then row[i] else "", widths[i]), l);
    var at := BarAt(widths, i) + 2;
    && 0 <= at && at + widths[i] <= |text|
    && if i < |alignments| && alignments[i] == AlignRight then StandsRight(text[at..at + widths[i]], piece)
       else StandsLeft(text[at..at + widths[i]], piece)
  }

  lemma PieceLooks(pieces: seq<string>, width: nat, alignment: Alignment, l: nat, cell: string)
    requires PiecesWithin(pieces, width) && cell == CellText(pieces, width, alignment, l)
    ensures if alignment == AlignRight then StandsRight(cell, PieceAt(pieces, l)) else StandsLeft(cell, PieceAt(pieces, l))
  {
    AlignLooks(PieceAt(pieces, l), width, alignment);
  }

  lemma CellLooksRight(text: string, row: seq<string>, widths: seq<nat>, alignments: seq<Alignment>, l: nat, i: nat,
                       pieces: seq<string>, cell: string)
    requires i < |widths| && Shows(text, BarAt(widths, i) + 2, widths[i], cell)
    requires pieces == WrapCell(if i < |row| then row[i] else "", widths[i])
    requires if i < |alignments| && alignments[i] == AlignRight then StandsRight(cell, PieceAt(pieces, l))
             else StandsLeft(cell, PieceAt(pieces, l))
    ensures CellLooks(text, row, widths, alignments, l, i)
  {
  }

  lemma RowCellLooks(row: seq<string>, cells: seq<seq<string>>, widths: seq<nat>, alignments: seq<Alignment>, l: nat, i: nat, text: string)
    requires i < |widths| && cells == Wrapped(row, widths, |widths|) && CellsFit(cells, widths)
    requires text == LineUpTo(cells, widths, alignments, l, |widths|)
    ensures CellLooks(text, row, widths, alignments, l, i)
  {
    var cell := CellText(cells[i], widths[i], AlignmentAt(alignments, i), l);
    CellOnLine(cells, widths, alignments, l, i, |widths|);
    WrappedAt(row, widths, i, |widths|);
    PieceLooks(cells[i], widths[i], AlignmentAt(alignments, i), l, cell);
    CellLooksRight(text, row, widths, alignments, l, i, cells[i], cell);
  }

  /** Every line of a row stands between bars and shows the right piece of every cell; there are as many lines as needed. */
  lemma {:induction false} RowLooks(row: seq<string>, widths: seq<nat>, alignments: seq<Alignment>, l: nat)
    ensures |Row(row, widths, alignments)| == Height(Wrapped(row, widths, |widths|))
    ensures l < |Row(row, widths, alignments)| ==> LineLooks(Row(row, widths, alignments)[l], row, widths, alignments, l)
  {
    var cells := Wrapped(row, widths, |widths|);
    var height := Height(cells);
    WrappedFits(row, widths, |widths|);
    assert widths[..|widths|] == widths;
    RowLineAt(cells, widths, alignments, height, if l < height then l else 0);
    if l < height {
      var text := LineUpTo(cells, widths, alignments, l, |widths|);
      LineUpToLooks(cells, widths, alignments, l, |widths|);
      forall i | 0 <= i < |widths| ensures CellLooks(text, row, widths, alignments, l, i) {
        RowCellLooks(row, cells, widths, alignments, l, i, text);
      }
    }
  }

  // ---------- columns ----------

  /** The cells of one column in the order of the rows; a row that is too short has an empty one. */
  function ColumnCells(rows: seq<seq<string>>, i: nat): (cells: seq<string>)
    ensures |cells| == |rows|
    ensures forall k :: 0 <= k < |rows| ==> cells[k] == if i < |rows[k]| then rows[k][i] else ""
  {
    seq(|rows|, k requires 0 <= k < |rows| => if i < |rows[k]| then rows[k][i] else "")
  }

  lemma {:induction false} ColumnAppend(p: seq<string>, q: seq<string>, offset: int, width: nat, s: string, t: string)
    requires ColumnHolds(p, offset, width, s) && ColumnHolds(q, offset, width, t)
    ensures ColumnHolds(p + q, offset, width, s + t)
  {
    ColumnTextAppend(p, q, offset, width);
    SolidAppend(ColumnText(p, offset, width), ColumnText(q, offset, width));
    SolidAppend(s, t);
  }

  lemma {:induction false} ColumnTextAppend(p: seq<string>, q: seq<string>, offset: nat, width: nat)
    requires forall l :: 0 <= l < |p| ==> offset + width <= |p[l]|
    requires forall l :: 0 <= l < |q| ==> offset + width <= |q[l]|
    ensures forall l :: 0 <= l < |p + q| ==> offset + width <= |(p + q)[l]|
    ensures ColumnText(p + q, offset, width) == ColumnText(p, offset, width) + ColumnText(q, offset, width)
  {
    if q == [] {
      assert p + q == p;
    } else {
      var front, last := q[..|q| - 1], q[|q| - 1];
      ColumnTextAppend(p, front, offset, width);
      assert (p + q)[..|p + q| - 1] == p + front && (p + q)[|p + q| - 1] == last;
      Assoc(ColumnText(p, offset, width), ColumnText(front, offset, width), last[offset..offset + width]);
    }
  }

  ghost predicate BodyHolds(rows: seq<seq<string>>, widths: seq<nat>, alignments: seq<Alignment>, i: nat, n: nat)
    requires i < |widths| && n <= |rows|
  {
    ColumnHolds(Body(rows, widths, alignments, n), Offset(widths, i), widths[i], Concat(ColumnCells(rows, i)[..n]))
  }

  lemma BodyNone(rows: seq<seq<string>>, widths: seq<nat>, alignments: seq<Alignment>, i: nat)
    requires i < |widths|
    ensures BodyHolds(rows, widths, alignments, i, 0)
  {
    SumOfPrefix(widths, i, i);
    assert ColumnCells(rows, i)[..0] == [];
  }

  lemma BodyNext(rows: seq<seq<string>>, widths: seq<nat>, alignments: seq<Alignment>, i: nat, n: nat)
    requires i < |widths| && widths[i] >= 1 && n < |rows| && BodyHolds(rows, widths, alignments, i, n)
    ensures BodyHolds(rows, widths, alignments, i, n + 1)
  {
    var cells, above, last := ColumnCells(rows, i), Body(rows, widths, alignments, n), Row(rows[n], widths, alignments);
    CellSurvives(rows[n], widths, alignments, i);
    ColumnAppend(above, last, Offset(widths, i), widths[i], Concat(cells[..n]), cells[n]);
    ConcatSnoc(cells, n);
  }

  lemma ConcatSnoc(cells: seq<string>, n: nat)
    requires n < |cells|
    ensures Concat(cells[..n + 1]) == Concat(cells[..n]) + cells[n]
  {
    assert cells[..n + 1] == cells[..n] + [cells[n]];
    ConcatAppend(cells[..n], [cells[n]]);
    assert Concat([cells[n]]) == cells[n] + "" == cells[n];
  }

  /** Reading a column of positive width down the body gives its cells in the order of the rows, white space aside. */
  lemma {:induction false} BodySurvives(rows: seq<seq<string>>, widths: seq<nat>, alignments: seq<Alignment>, i: nat)
    requires i < |widths| && widths[i] >= 1
    ensures ColumnHolds(Body(rows, widths, alignments, |rows|), Offset(widths, i), widths[i], Concat(ColumnCells(rows, i)))
  {
    BodyNone(rows, widths, alignments, i);
    for n := 0 to |rows|
      invariant BodyHolds(rows, widths, alignments, i, n)
    {
      BodyNext(rows, widths, alignments, i, n);
    }
    assert ColumnCells(rows, i)[..|rows|] == ColumnCells(rows, i);
  }

  /** The whole table: a border, the header's row, a border, the body, a border. */
  lemma TableLooksWhole(headers: seq<string>, rows: seq<seq<string>>, widths: seq<nat>, alignments: seq<Alignment>, border: string)
    requires BorderChars(border, widths, |widths|)
    ensures Table(headers, rows, widths, alignments)
            == [border] + Row(headers, widths, alignments) + [border] + Body(rows, widths, alignments, |rows|) + [border]
  {
    BorderLooks(widths);
    assert border == Border(widths);
  }
}
