/** How wide columns naturally are: as wide as the widest line in them, which then needs no cut. */
module NaturalWidths {
  import opened Text
  import opened Wrapping
  import opened ColumnWidths

  /** The lines of a cell, with all line ends normalised. */
  function CellLines(value: string): (lines: seq<string>)
    ensures lines != []
  {
    Split(NormaliseNewlines(value, ' '), '\n')
  }

  lemma {:induction false} NoneWider(lines: seq<string>, l: string)
    requires l in lines
    ensures |l| <= WidestLine(lines)
  {
    var front, last := lines[..|lines| - 1], lines[|lines| - 1];
    if l != last {
      assert lines == front + [last];
      NoneWider(front, l);
    }
  }

  lemma {:induction false} WidestFound(lines: seq<string>) returns (l: string)
    requires lines != []
    ensures l in lines && |l| == WidestLine(lines)
  {
    var front, last := lines[..|lines| - 1], lines[|lines| - 1];
    if WidestLine(front) <= |last| {
      l := last;
    } else {
      l := WidestFound(front);
      assert lines == front + [last];
    }
  }

  lemma {:induction false} WidestLineMeans(lines: seq<string>)
    ensures forall l :: l in lines ==> |l| <= WidestLine(lines)
    ensures lines != [] ==> exists l :: l in lines && |l| == WidestLine(lines)
  {
    forall l | l in lines ensures |l| <= WidestLine(lines) {
      NoneWider(lines, l);
    }
    if lines != [] {
      var l := WidestFound(lines);
    }
  }

  // ---------- columns ----------

  /** The value stands in column `i`, in the header or in one of the first `k` rows. */
  ghost predicate InColumn(headers: seq<string>, rows: seq<seq<string>>, i: nat, k: nat, value: string)
    requires i < |headers| && k <= |rows|
  {
    value == headers[i] || exists j :: 0 <= j < k && i < |rows[j]| && rows[j][i] == value
  }

  ghost predicate HoldsLine(headers: seq<string>, rows: seq<seq<string>>, i: nat, k: nat, value: string, line: string)
    requires i < |headers| && k <= |rows|
  {
    InColumn(headers, rows, i, k, value) && line in CellLines(value)
  }

  /** No line in the column is longer than `w`, and one has that length. */
  ghost predicate IsWidest(headers: seq<string>, rows: seq<seq<string>>, i: nat, k: nat, w: nat)
    requires i < |headers| && k <= |rows|
  {
    && (forall value, line :: HoldsLine(headers, rows, i, k, value, line) ==> |line| <= w)
    && (exists value, line :: HoldsLine(headers, rows, i, k, value, line) && |line| == w)
  }

  lemma WidestHeader(headers: seq<string>, rows: seq<seq<string>>, i: nat)
    requires i < |headers|
    ensures IsWidest(headers, rows, i, 0, MaxLineWidth(headers[i]))
  {
    WidestLineMeans(CellLines(headers[i]));
    var line :| line in CellLines(headers[i]) && |line| == MaxLineWidth(headers[i]);
    assert HoldsLine(headers, rows, i, 0, headers[i], line);
  }

  lemma InColumnNext(headers: seq<string>, rows: seq<seq<string>>, i: nat, k: nat, value: string)
    requires i < |headers| && k < |rows|
    ensures InColumn(headers, rows, i, k + 1, value) <==> InColumn(headers, rows, i, k, value) || (i < |rows[k]| && rows[k][i] == value)
  {
  }

  lemma WidestRow(headers: seq<string>, rows: seq<seq<string>>, i: nat, k: nat, w: nat)
    requires i < |headers| && k < |rows| && IsWidest(headers, rows, i, k, w)
    ensures IsWidest(headers, rows, i, k + 1, if i < |rows[k]| then Max(w, MaxLineWidth(rows[k][i])) else w)
  {
    var next, v := k + 1, if i < |rows[k]| then Max(w, MaxLineWidth(rows[k][i])) else w;
    if i < |rows[k]| {
      WidestLineMeans(CellLines(rows[k][i]));
    }
    forall value, line ensures HoldsLine(headers, rows, i, next, value, line) ==> |line| <= v {
      InColumnNext(headers, rows, i, k, value);
      assert InColumn(headers, rows, i, k, value) && line in CellLines(value) ==> HoldsLine(headers, rows, i, k, value, line);
    }
    if v == w {
      var value, line :| HoldsLine(headers, rows, i, k, value, line) && |line| == w;
      InColumnNext(headers, rows, i, k, value);
      assert HoldsLine(headers, rows, i, k + 1, value, line);
    } else {
      var value := rows[k][i];
      var line :| line in CellLines(value) && |line| == MaxLineWidth(value);
      InColumnNext(headers, rows, i, k, value);
      assert HoldsLine(headers, rows, i, k + 1, value, line);
    }
  }

  // ---------- plain tables ----------

  /** The widest line of column `i` in the header and the first `k` rows. */
  function NaturalTableWidth(headers: seq<string>, rows: seq<seq<string>>, i: nat, k: nat): nat
    requires i < |headers| && k <= |rows|
  {
    if k == 0 then MaxLineWidth(headers[i])
    else
      var w := NaturalTableWidth(headers, rows, i, k - 1);
      if i >= |rows[k - 1]| then w else Max(w, MaxLineWidth(rows[k - 1][i]))
  }

  function NaturalTable(headers: seq<string>, rows: seq<seq<string>>): seq<nat> {
    seq(|headers|, i requires 0 <= i < |headers| => NaturalTableWidth(headers, rows, i, |rows|))
  }

  lemma {:induction false} NaturalTableWidthMeans(headers: seq<string>, rows: seq<seq<string>>, i: nat, k: nat)
    requires i < |headers| && k <= |rows|
    ensures IsWidest(headers, rows, i, k, NaturalTableWidth(headers, rows, i, k))
  {
    if k == 0 {
      WidestHeader(headers, rows, i);
    } else {
      NaturalTableWidthMeans(headers, rows, i, k - 1);
      WidestRow(headers, rows, i, k - 1, NaturalTableWidth(headers, rows, i, k - 1));
    }
  }

  /** Every line of the header and of the cells fits its column of a plain table, and one of them fills it. */
  lemma {:induction false} NaturalTableMeans(headers: seq<string>, rows: seq<seq<string>>, i: nat)
    requires i < |headers|
    ensures |NaturalTable(headers, rows)| == |headers| && IsWidest(headers, rows, i, |rows|, NaturalTable(headers, rows)[i])
  {
    NaturalTableWidthMeans(headers, rows, i, |rows|);
  }

  // ---------- enhanced tables ----------

  lemma {:induction false} NaturalWidthMeans(headers: seq<string>, rows: seq<seq<string>>, i: nat, k: nat) returns (w: nat)
    requires i < |headers| && k <= |rows|
    ensures IsWidest(headers, rows, i, k, w) && NaturalWidth(headers, rows, i, k) == Min(Max(w, 4), 64)
  {
    if k == 0 {
      WidestHeader(headers, rows, i);
      w := MaxLineWidth(headers[i]);
    } else {
      w := NaturalWidthMeans(headers, rows, i, k - 1);
      WidestRow(headers, rows, i, k - 1, w);
      w := if i < |rows[k - 1]| then Max(w, MaxLineWidth(rows[k - 1][i])) else w;
    }
  }

  /** The same for enhanced tables, where the width of the widest line is kept between 4 and 64. */
  lemma {:induction false} NaturalWidthsMean(headers: seq<string>, rows: seq<seq<string>>, i: nat)
    requires i < |headers|
    ensures |NaturalWidths(headers, rows, |rows|)| == |headers|
    ensures exists w: nat :: IsWidest(headers, rows, i, |rows|, w) &&
              NaturalWidths(headers, rows, |rows|)[i] == if w < 4 then 4 else if w > 64 then 64 else w
  {
    var w := NaturalWidthMeans(headers, rows, i, |rows|);
  }

  // ---------- nothing to cut ----------

  /** The pieces are the lines of the cell without their trailing white space. */
  ghost predicate IsUncut(pieces: seq<string>, lines: seq<string>) {
    |pieces| == |lines| && forall k :: 0 <= k < |lines| ==> pieces[k] == TrimRight(lines[k])
  }

  lemma UncutLine(line: string, width: nat)
    requires width >= 1 && |line| <= width
    ensures WrapLine(AtSpace, line, width) == [TrimRight(line)]
  {
  }

  lemma {:induction false} UncutLines(lines: seq<string>, width: nat)
    requires width >= 1 && forall l :: l in lines ==> |l| <= width
    ensures IsUncut(WrapLines(AtSpace, lines, width), lines)
  {
    if lines == [] {
    } else {
      UncutLine(lines[0], width);
      UncutLines(lines[1..], width);
    }
  }

  /** At its natural width no line of a column is cut; a column of width 0 holds empty lines only. */
  lemma {:induction false} NaturalCutsNothing(headers: seq<string>, rows: seq<seq<string>>, i: nat, value: string)
    requires i < |headers| && InColumn(headers, rows, i, |rows|, value)
    ensures var width := NaturalTable(headers, rows)[i];
            if width >= 1 then IsUncut(WrapCell(value, width), CellLines(value))
            else forall line :: line in CellLines(value) ==> line == ""
  {
    var width := NaturalTable(headers, rows)[i];
    NaturalTableMeans(headers, rows, i);
    forall line | line in CellLines(value) ensures |line| <= width {
      assert HoldsLine(headers, rows, i, |rows|, value, line);
    }
    if width >= 1 {
      UncutLines(CellLines(value), width);
    }
  }
}
