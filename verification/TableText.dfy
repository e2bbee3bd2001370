/** Writing a bordered table, line by line. */
module TableText {
  import opened Text
  import opened Wrapping
  import opened ColumnWidths

  datatype Alignment = AlignLeft | AlignRight

  /** Standard output; write errors are not part of this model. */
  class Output {
    var text: string

    constructor ()
      ensures text == ""
    {
      text := "";
    }

    method Print(s: string)
      modifies this
      ensures text == old(text) + s
    {
      text := text + s;
    }
  }

  function Repeat(c: char, n: nat): (s: string)
    ensures |s| == n && forall i :: 0 <= i < n ==> s[i] == c
  {
    seq(n, _ => c)
  }

  function PadRight(value: string, width: int): string {
    if width - |value| <= 0 then value else value + Repeat(' ', width - |value|)
  }

  function PadLeft(value: string, width: int): string {
    if width - |value| <= 0 then value else Repeat(' ', width - |value|) + value
  }

  function AlignTableCell(value: string, width: int, alignment: Alignment): (r: string)
    ensures |value| <= width ==> |r| == width
  {
    if alignment == AlignRight then PadLeft(value, width) else PadRight(value, width)
  }

  function AlignmentAt(alignments: seq<Alignment>, index: nat): Alignment {
    if index < |alignments| then alignments[index] else AlignLeft
  }

  // ---------- the lines of a table ----------

  function BorderUpTo(widths: seq<nat>, n: nat): string
    requires n <= |widths|
  {
    if n == 0 then "+" else BorderUpTo(widths, n - 1) + (Repeat('-', widths[n - 1] + 2) + "+")
  }

  function CellValue(row: seq<string>, i: nat): string {
    if i < |row| then row[i] else ""
  }

  /** The wrapped cells of the first `n` columns of a row; columns that the row lacks are empty. */
  function Wrapped(row: seq<string>, widths: seq<nat>, n: nat): (cells: seq<seq<string>>)
    requires n <= |widths|
    ensures |cells| == n
  {
    if n == 0 then [] else Wrapped(row, widths, n - 1) + [WrapCell(CellValue(row, n - 1), widths[n - 1])]
  }

  function Height(cells: seq<seq<string>>): (height: nat)
    ensures height >= 1
  {
    if cells == [] then 1 else Max(Height(cells[..|cells| - 1]), |cells[|cells| - 1]|)
  }

  /** What a column shows on one line of its row. */
  function CellText(pieces: seq<string>, width: nat, alignment: Alignment, line: nat): string {
    AlignTableCell(if line < |pieces| then pieces[line] else "", width, alignment)
  }

  function LineUpTo(cells: seq<seq<string>>, widths: seq<nat>, alignments: seq<Alignment>, line: nat, n: nat): string
    requires n <= |widths| == |cells|
  {
    if n == 0 then "|"
    else LineUpTo(cells, widths, alignments, line, n - 1)
         + (" " + CellText(cells[n - 1], widths[n - 1], AlignmentAt(alignments, n - 1), line) + " |")
  }

  function RowLines(cells: seq<seq<string>>, widths: seq<nat>, alignments: seq<Alignment>, n: nat): seq<string>
    requires |widths| == |cells|
  {
    if n == 0 then []
    else RowLines(cells, widths, alignments, n - 1) + [LineUpTo(cells, widths, alignments, n - 1, |widths|)]
  }

  function Row(row: seq<string>, widths: seq<nat>, alignments: seq<Alignment>): seq<string> {
    var cells := Wrapped(row, widths, |widths|);
    RowLines(cells, widths, alignments, Height(cells))
  }

  function Body(rows: seq<seq<string>>, widths: seq<nat>, alignments: seq<Alignment>, n: nat): seq<string>
    requires n <= |rows|
  {
    if n == 0 then [] else Body(rows, widths, alignments, n - 1) + Row(rows[n - 1], widths, alignments)
  }

  function Border(widths: seq<nat>): string {
    BorderUpTo(widths, |widths|)
  }

  function TableLines(head: seq<string>, body: seq<string>, border: string): seq<string> {
    [border] + head + [border] + body + [border]
  }

  function Table(headers: seq<string>, rows: seq<seq<string>>, widths: seq<nat>, alignments: seq<Alignment>): seq<string> {
    TableLines(Row(headers, widths, alignments), Body(rows, widths, alignments, |rows|), Border(widths))
  }

  /** Lines as text, each ended by a newline. */
  function Unlines(lines: seq<string>): string {
    if lines == [] then "" else Unlines(lines[..|lines| - 1]) + (lines[|lines| - 1] + "\n")
  }

  lemma {:induction false} UnlinesAppend(p: seq<string>, q: seq<string>)
    ensures Unlines(p + q) == Unlines(p) + Unlines(q)
  {
    if q == [] {
      assert p + q == p;
    } else {
      var front, last := q[..|q| - 1], q[|q| - 1] + "\n";
      UnlinesAppend(p, front);
      assert (p + q)[..|p + q| - 1] == p + front;
      Assoc(Unlines(p), Unlines(front), last);
    }
  }

  lemma UnlinesExtend(before: string, done: seq<string>, next: seq<string>)
    ensures before + Unlines(done) + Unlines(next) == before + Unlines(done + next)
  {
    UnlinesAppend(done, next);
    Assoc(before, Unlines(done), Unlines(next));
  }

  lemma UnlinesSnoc(p: seq<string>, line: string)
    ensures Unlines(p + [line]) == Unlines(p) + (line + "\n")
  {
    assert (p + [line])[..|p|] == p;
  }

  // ---------- the program ----------

  method WriteTableBorder(stdout: Output, widths: seq<nat>)
    modifies stdout
    ensures stdout.text == old(stdout.text) + Unlines([Border(widths)])
  {
    ghost var before := stdout.text;
    stdout.Print("+");
    for i := 0 to |widths|
      invariant stdout.text == before + BorderUpTo(widths, i)
    {
      stdout.Print(Repeat('-', widths[i] + 2) + "+");
      Assoc(before, BorderUpTo(widths, i), Repeat('-', widths[i] + 2) + "+");
    }
    stdout.Print("\n");
    UnlinesSnoc([], Border(widths));
    assert [] + [Border(widths)] == [Border(widths)];
    assert "" + (Border(widths) + "\n") == Border(widths) + "\n";
    Assoc(before, Border(widths), "\n");
  }

  method WriteTableLine(stdout: Output, wrapped: seq<seq<string>>, widths: seq<nat>, alignments: seq<Alignment>, line: nat)
    requires |wrapped| == |widths|
    modifies stdout
    ensures stdout.text == old(stdout.text) + (LineUpTo(wrapped, widths, alignments, line, |widths|) + "\n")
  {
    ghost var before := stdout.text;
    stdout.Print("|");
    for i := 0 to |widths|
      invariant stdout.text == before + LineUpTo(wrapped, widths, alignments, line, i)
    {
      var value := "";
      if line < |wrapped[i]| {
        value := wrapped[i][line];
      }
      value := AlignTableCell(value, widths[i], AlignmentAt(alignments, i));
      stdout.Print(" " + value + " |");
      Assoc(before, LineUpTo(wrapped, widths, alignments, line, i), " " + value + " |");
    }
    stdout.Print("\n");
    Assoc(before, LineUpTo(wrapped, widths, alignments, line, |widths|), "\n");
  }

  method WrapRow(row: seq<string>, widths: seq<nat>) returns (wrapped: seq<seq<string>>, height: nat)
    ensures wrapped == Wrapped(row, widths, |widths|) && height == Height(wrapped)
  {
    wrapped, height := [], 1;
    for i := 0 to |widths|
      invariant wrapped == Wrapped(row, widths, i) && height == Height(wrapped)
    {
      var value := "";
      if i < |row| {
        value := row[i];
      }
      var pieces := PrettyWrapTableCell(value, widths[i], false);
      HeightSnoc(wrapped, pieces);
      wrapped := wrapped + [pieces];
      height := Max(height, |pieces|);
    }
  }

  lemma HeightSnoc(cells: seq<seq<string>>, pieces: seq<string>)
    ensures Height(cells + [pieces]) == Max(Height(cells), |pieces|)
  {
    assert (cells + [pieces])[..|cells|] == cells;
  }

  method WriteTableRow(stdout: Output, row: seq<string>, widths: seq<nat>, alignments: seq<Alignment>)
    modifies stdout
    ensures stdout.text == old(stdout.text) + Unlines(Row(row, widths, alignments))
  {
    var wrapped, height := WrapRow(row, widths);
    ghost var before := stdout.text;
    for line := 0 to height
      invariant stdout.text == before + Unlines(RowLines(wrapped, widths, alignments, line))
    {
      ghost var done, next := RowLines(wrapped, widths, alignments, line), LineUpTo(wrapped, widths, alignments, line, |widths|);
      WriteTableLine(stdout, wrapped, widths, alignments, line);
      UnlinesSnoc(done, next);
      Assoc(before, Unlines(done), next + "\n");
    }
  }

  lemma BodySnoc(rows: seq<seq<string>>, widths: seq<nat>, alignments: seq<Alignment>, i: nat)
    requires i < |rows|
    ensures Body(rows, widths, alignments, i + 1) == Body(rows, widths, alignments, i) + Row(rows[i], widths, alignments)
  {
  }

  method WriteTableRows(stdout: Output, rows: seq<seq<string>>, widths: seq<nat>, alignments: seq<Alignment>)
    modifies stdout
    ensures stdout.text == old(stdout.text) + Unlines(Body(rows, widths, alignments, |rows|))
  {
    ghost var before, done := stdout.text, [];
    for i := 0 to |rows|
      invariant done == Body(rows, widths, alignments, i)
      invariant stdout.text == before + Unlines(done)
    {
      ghost var next := Row(rows[i], widths, alignments);
      BodySnoc(rows, widths, alignments, i);
      UnlinesExtend(before, done, next);
      WriteTableRow(stdout, rows[i], widths, alignments);
      done := done + next;
    }
  }

  method WriteTable(stdout: Output, headers: seq<string>, rows: seq<seq<string>>, widths: seq<nat>, alignments: seq<Alignment>)
    modifies stdout
    ensures stdout.text == old(stdout.text) + Unlines(Table(headers, rows, widths, alignments))
  {
    ghost var before := stdout.text;
    WriteTableBorder(stdout, widths);
    WriteTableRow(stdout, headers, widths, alignments);
    WriteTableBorder(stdout, widths);
    WriteTableRows(stdout, rows, widths, alignments);
    WriteTableBorder(stdout, widths);
    UnlinesOfTable(before, Row(headers, widths, alignments), Body(rows, widths, alignments, |rows|), Border(widths));
  }

  lemma UnlinesOfTable(before: string, head: seq<string>, body: seq<string>, border: string)
    ensures before + Unlines([border]) + Unlines(head) + Unlines([border]) + Unlines(body) + Unlines([border])
            == before + Unlines(TableLines(head, body, border))
  {
    var b := [border];
    UnlinesExtend(before, b, head);
    UnlinesExtend(before, b + head, b);
    UnlinesExtend(before, b + head + b, body);
    UnlinesExtend(before, b + head + b + body, b);
  }
}
