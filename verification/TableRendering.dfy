/** Rendering a plain table: natural widths, fitting to a target width, and writing. */
module TableRendering {
  import opened Options
  import opened Wrapping
  import opened ColumnWidths
  import opened NaturalWidths
  import opened CliffWidths
  import opened TableText
  import opened TableLaws

  method WidenForRow(widths: array<nat>, headers: seq<string>, rows: seq<seq<string>>, k: nat)
    requires widths.Length == |headers| && k < |rows|
    requires forall c :: 0 <= c < |headers| ==> widths[c] == NaturalTableWidth(headers, rows, c, k)
    modifies widths
    ensures forall c :: 0 <= c < |headers| ==> widths[c] == NaturalTableWidth(headers, rows, c, k + 1)
  {
    var row := rows[k];
    for i := 0 to widths.Length
      invariant forall c :: i <= c < |headers| ==> widths[c] == NaturalTableWidth(headers, rows, c, k)
      invariant forall c :: 0 <= c < i ==> widths[c] == NaturalTableWidth(headers, rows, c, k + 1)
    {
      if i < |row| {
        widths[i] := Max(widths[i], MaxLineWidth(row[i]));
      }
    }
  }

  method NaturalTableWidths(headers: seq<string>, rows: seq<seq<string>>) returns (r: seq<nat>)
    ensures r == NaturalTable(headers, rows)
  {
    var widths := new nat[|headers|];
    for i := 0 to |headers|
      invariant forall c :: 0 <= c < i ==> widths[c] == NaturalTableWidth(headers, rows, c, 0)
    {
      widths[i] := MaxLineWidth(headers[i]);
    }
    for k := 0 to |rows|
      invariant forall c :: 0 <= c < |headers| ==> widths[c] == NaturalTableWidth(headers, rows, c, k)
    {
      WidenForRow(widths, headers, rows, k);
    }
    r := widths[..];
  }

  /** The natural widths stand: there is no target, or it is not smaller. */
  predicate Unfitted(natural: seq<nat>, target: Option<int>) {
    target == None || target.value <= 0 || 1 + 3 * |natural| + Sum(natural) <= target.value
  }

  /** How wide a rendered table is, given its natural width and the target. */
  ghost predicate WidthIsRight(natural: seq<nat>, target: Option<int>, minWidth: int, width: int) {
    if Unfitted(natural, target) then width == 1 + 3 * |natural| + Sum(natural)
    else
      && width >= target.value
      && (width == target.value <==> target.value >= 1 + 3 * |natural| && minWidth <= Share(natural, target.value))
  }

  /** Every cell of the header and the rows is written line by line, none of them cut. */
  ghost predicate NothingCut(headers: seq<string>, rows: seq<seq<string>>, widths: seq<nat>)
    requires |widths| == |headers|
  {
    forall i, value :: 0 <= i < |headers| && InColumn(headers, rows, i, |rows|, value) && widths[i] >= 1 ==>
      IsUncut(WrapCell(value, widths[i]), CellLines(value))
  }

  /** Without a target the natural widths stand. */
  method FitNatural(natural: seq<nat>, target: Option<int>, minWidth: int) returns (fitted: seq<nat>)
    ensures |fitted| == |natural| && WidthIsRight(natural, target, minWidth, DisplayWidth(fitted))
    ensures if Unfitted(natural, target) then fitted == natural else NarrowStay(natural, fitted, target.value)
  {
    if target == None {
      return natural;
    }
    var widths := AssignCliffStyleMaxWidths(natural, target.value, minWidth);
    fitted := widths;
  }

  /** Columns within the equal share keep their natural width. */
  ghost predicate NarrowStay(natural: seq<nat>, fitted: seq<nat>, target: int)
    requires |fitted| == |natural|
  {
    forall i :: 0 <= i < |natural| && natural[i] <= OptimalWidth(target, |natural|) ==> fitted[i] == natural[i]
  }

  /**
   * Everything written is one bordered table, all of whose lines have the same width: the natural one when that fits, and
   * otherwise at least the target, exactly the target when the borders fit and a wide column's share covers `minWidth`.
   * Without fitting, no line of a cell is cut; with it, columns within the equal share keep their natural width.
   */
  method RenderTableAligned(stdout: Output, headers: seq<string>, rows: seq<seq<string>>, alignments: seq<Alignment>,
                            target: Option<int>, minWidth: int, printEmpty: bool)
    returns (ghost widths: seq<nat>)
    modifies stdout
    ensures rows == [] && !printEmpty ==> stdout.text == old(stdout.text) + "\n"
    ensures rows != [] || printEmpty ==>
              && stdout.text == old(stdout.text) + Unlines(Table(headers, rows, widths, alignments))
              && |widths| == |headers|
              && IsBordered(Table(headers, rows, widths, alignments), 1 + |Row(headers, widths, alignments)|, DisplayWidth(widths))
              && WidthIsRight(NaturalTable(headers, rows), target, minWidth, DisplayWidth(widths))
              && (Unfitted(NaturalTable(headers, rows), target) ==> widths == NaturalTable(headers, rows) && NothingCut(headers, rows, widths))
              && (!Unfitted(NaturalTable(headers, rows), target) ==> NarrowStay(NaturalTable(headers, rows), widths, target.value))
  {
    widths := [];
    if |rows| == 0 && !printEmpty {
      stdout.Print("\n");
      return;
    }
    var natural := NaturalTableWidths(headers, rows);
    var fitted := FitNatural(natural, target, minWidth);
    widths := fitted;
    WriteTable(stdout, headers, rows, fitted, alignments);
    TableIsRectangular(headers, rows, widths, alignments);
    if Unfitted(natural, target) {
      NaturalLeavesUncut(headers, rows);
    }
  }

  lemma NaturalLeavesUncut(headers: seq<string>, rows: seq<seq<string>>)
    ensures NothingCut(headers, rows, NaturalTable(headers, rows))
  {
    forall i, value | 0 <= i < |headers| && InColumn(headers, rows, i, |rows|, value) && NaturalTable(headers, rows)[i] >= 1
      ensures IsUncut(WrapCell(value, NaturalTable(headers, rows)[i]), CellLines(value))
    {
      NaturalCutsNothing(headers, rows, i, value);
    }
  }
}
