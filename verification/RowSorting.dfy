/** The comparison tool's sorting of table rows, on any text and on tables that the writer produced. */
module RowSorting {
  import opened Text
  import opened Orders
  import opened CliffWidths
  import opened TableText
  import opened TableLaws

  predicate IsBorder(line: string) {
    HasPrefix(line, "+")
  }

  /** From line `i` on, after `count` borders: the line after the second border, and the third border, or -1. */
  function Scan(lines: seq<string>, i: nat, count: nat, start: int): (int, int)
    requires i <= |lines|
    decreases |lines| - i
  {
    if i == |lines| then (start, -1)
    else if !IsBorder(lines[i]) then Scan(lines, i + 1, count, start)
    else if count == 2 then (start, i)
    else Scan(lines, i + 1, count + 1, if count == 1 then i + 1 else start)
  }

  lemma {:induction false} ScanBounds(lines: seq<string>, i: nat, count: nat, start: int)
    requires i <= |lines| && count <= 2 && (count < 2 ==> start == -1) && (count == 2 ==> 0 <= start <= i)
    requires count == 2 ==> forall k :: start <= k < i ==> !IsBorder(lines[k])
    ensures var (s, e) := Scan(lines, i, count, start);
            && -1 <= s <= |lines| && -1 <= e < |lines|
            && (s >= 0 && e > s ==> forall k :: s <= k < e ==> !IsBorder(lines[k]))
    decreases |lines| - i
  {
    if i == |lines| {
    } else {
      if !IsBorder(lines[i]) {
        ScanBounds(lines, i + 1, count, start);
      } else if count < 2 {
        ScanBounds(lines, i + 1, count + 1, if count == 1 then i + 1 else start);
      }
    }
  }

  /** Only which lines are borders matters. */
  lemma {:induction false} ScanCongruent(p: seq<string>, q: seq<string>, i: nat, count: nat, start: int)
    requires |p| == |q| && i <= |p| && forall k :: 0 <= k < |p| ==> IsBorder(p[k]) == IsBorder(q[k])
    ensures Scan(p, i, count, start) == Scan(q, i, count, start)
    decreases |p| - i
  {
    if i == |p| {
    } else {
      ScanCongruent(p, q, i + 1, count, start);
      ScanCongruent(p, q, i + 1, count + 1, if count == 1 then i + 1 else start);
    }
  }

  function SortBody(lines: seq<string>): (r: seq<string>)
    ensures |r| == |lines|
  {
    var (start, end) := Scan(lines, 0, 0, -1);
    ScanBounds(lines, 0, 0, -1);
    if start < 0 || end <= start then lines
    else lines[..start] + SortStrings(lines[start..end]) + lines[end..]
  }

  function SortRows(value: string): string {
    Join(SortBody(Split(value, '\n')), '\n')
  }

  /** The scan for the second and third border. */
  method FindBody(lines: array<string>) returns (start: int, end: int)
    ensures (start, end) == Scan(lines[..], 0, 0, -1)
  {
    var borderCount := 0;
    start, end := -1, -1;
    var i := 0;
    while i < lines.Length
      invariant 0 <= i <= lines.Length && 0 <= borderCount <= 2 && end == -1
      invariant Scan(lines[..], i, borderCount, start) == Scan(lines[..], 0, 0, -1)
    {
      if IsBorder(lines[i]) {
        borderCount := borderCount + 1;
        if borderCount == 2 {
          start := i + 1;
        }
        if borderCount == 3 {
          end := i;
          break;
        }
      }
      i := i + 1;
    }
  }

  /** `copy(lines[start:], rows)` for rows that fit. */
  method CopyInto(lines: array<string>, start: nat, rows: seq<string>)
    requires start + |rows| <= lines.Length
    modifies lines
    ensures lines[..] == old(lines[..start]) + rows + old(lines[start + |rows|..])
  {
    forall k | 0 <= k < |rows| {
      lines[start + k] := rows[k];
    }
  }

  method SortTableDataRows(value: string) returns (r: string)
    ensures r == SortRows(value)
  {
    var split := Split(value, '\n');
    JoinOfSplit(value, '\n');
    ScanBounds(split, 0, 0, -1);
    var lines := new string[|split|](i requires 0 <= i < |split| => split[i]);
    var start, end := FindBody(lines);
    assert lines[..] == split;
    if start < 0 || end <= start {
      return value;
    }
    assert lines[start..end] == split[start..end];
    var rows := SortStrings(lines[start..end]);
    SortedInPlace(split, start, end);
    CopyInto(lines, start, rows);
    r := Join(lines[..], '\n');
  }

  lemma SortedInPlace(lines: seq<string>, start: nat, end: nat)
    requires (start as int, end as int) == Scan(lines, 0, 0, -1) && start < end <= |lines|
    ensures var rows := SortStrings(lines[start..end]);
            start + |rows| == end && SortBody(lines) == lines[..start] + rows + lines[start + |rows|..]
  {
  }

  // ---------- on any text ----------

  lemma SortedHoldsNoBorder(body: seq<string>, k: nat)
    requires k < |body| && forall l :: l in body ==> !IsBorder(l)
    ensures !IsBorder(SortStrings(body)[k])
  {
    assert SortStrings(body)[k] in multiset(SortStrings(body));
  }

  lemma SortBodyPermutes(lines: seq<string>)
    ensures multiset(SortBody(lines)) == multiset(lines)
  {
    var (start, end) := Scan(lines, 0, 0, -1);
    ScanBounds(lines, 0, 0, -1);
    if start >= 0 && end > start {
      assert lines == lines[..start] + lines[start..end] + lines[end..];
    }
  }

  lemma SortBodyKeepsBorders(lines: seq<string>, k: nat)
    requires k < |lines|
    ensures IsBorder(SortBody(lines)[k]) == IsBorder(lines[k])
  {
    var (start, end) := Scan(lines, 0, 0, -1);
    ScanBounds(lines, 0, 0, -1);
    if 0 <= start <= k < end {
      SortedHoldsNoBorder(lines[start..end], k - start);
    }
  }

  lemma SortBodyIdempotent(lines: seq<string>)
    ensures SortBody(SortBody(lines)) == SortBody(lines)
  {
    var once := SortBody(lines);
    forall k | 0 <= k < |lines| ensures IsBorder(once[k]) == IsBorder(lines[k]) {
      SortBodyKeepsBorders(lines, k);
    }
    ScanCongruent(once, lines, 0, 0, -1);
    var (start, end) := Scan(lines, 0, 0, -1);
    ScanBounds(lines, 0, 0, -1);
    if start >= 0 && end > start {
      var sorted := SortStrings(lines[start..end]);
      assert once[start..end] == sorted && once[..start] == lines[..start] && once[end..] == lines[end..];
      NotAfterIsTotal();
      SortCanonical(NotAfter, sorted, lines[start..end]);
    }
  }

  lemma SplitSortRows(value: string)
    ensures Split(SortRows(value), '\n') == SortBody(Split(value, '\n'))
  {
    var lines := Split(value, '\n');
    SortBodyPermutes(lines);
    forall p | p in SortBody(lines) ensures '\n' !in p {
      assert p in multiset(SortBody(lines));
      assert p in lines;
    }
    SplitOfJoin(SortBody(lines), '\n');
  }

  /** For every text: sorting the rows permutes the lines, leaves each border in place, and twice is once. */
  lemma {:induction false} SortRowsIdempotent(value: string)
    ensures SortRows(SortRows(value)) == SortRows(value)
    ensures multiset(Split(SortRows(value), '\n')) == multiset(Split(value, '\n'))
    ensures forall k :: 0 <= k < |Split(value, '\n')| ==> IsBorder(Split(SortRows(value), '\n')[k]) == IsBorder(Split(value, '\n')[k])
  {
    var lines := Split(value, '\n');
    SplitSortRows(value);
    SortBodyPermutes(lines);
    SortBodyIdempotent(lines);
    forall k | 0 <= k < |lines| ensures IsBorder(SortBody(lines)[k]) == IsBorder(lines[k]) {
      SortBodyKeepsBorders(lines, k);
    }
  }

  /** The first three lines that start with a plus stand at `a`, `b` and `c`. */
  ghost predicate ThreeBorders(lines: seq<string>, a: nat, b: nat, c: nat) {
    a < b < c < |lines| && forall k :: 0 <= k <= c ==> ("+" <= lines[k] <==> k == a || k == b || k == c)
  }

  lemma ScanMeets(lines: seq<string>, a: nat, b: nat, c: nat)
    requires ThreeBorders(lines, a, b, c)
    ensures Scan(lines, 0, 0, -1) == (b + 1, c)
  {
    ScanSkips(lines, 0, a, 0, -1);
    ScanSkips(lines, a + 1, b, 1, -1);
    ScanSkips(lines, b + 1, c, 2, b + 1);
  }

  /** What the scan has seen before line `i`: `count` borders, at `a` and `b`. */
  ghost predicate Seen(lines: seq<string>, i: nat, count: nat, a: nat, b: nat) {
    && i <= |lines| && count <= 2 && (count >= 1 ==> a < i) && (count == 2 ==> a < b < i)
    && forall k :: 0 <= k < i ==> ("+" <= lines[k] <==> (count >= 1 && k == a) || (count == 2 && k == b))
  }

  lemma {:induction false} ScanFinds(lines: seq<string>, i: nat, count: nat, start: int, a: nat, b: nat) returns (x: nat, y: nat)
    requires Seen(lines, i, count, a, b)
    ensures var end := Scan(lines, i, count, start).1; end >= 0 ==> ThreeBorders(lines, x, y, end)
    decreases |lines| - i
  {
    x, y := a, b;
    if i < |lines| {
      if !IsBorder(lines[i]) {
        x, y := ScanFinds(lines, i + 1, count, start, a, b);
      } else if count < 2 {
        x, y := ScanFinds(lines, i + 1, count + 1, if count == 1 then i + 1 else start,
                          if count == 0 then i else a, if count == 1 then i else b);
      }
    }
  }

  /** For every text with three borders, exactly the lines between the second and the third are sorted. */
  lemma SortsBetweenBorders(value: string, a: nat, b: nat, c: nat)
    requires ThreeBorders(Split(value, '\n'), a, b, c)
    ensures var lines, sorted := Split(value, '\n'), Split(SortRows(value), '\n');
            && |sorted| == |lines|
            && sorted[..b + 1] == lines[..b + 1] && sorted[c..] == lines[c..]
            && multiset(sorted[b + 1..c]) == multiset(lines[b + 1..c])
            && forall i, j :: b < i < j < c ==> !Before(sorted[j], sorted[i])
  {
    var lines := Split(value, '\n');
    var body := lines[b + 1..c];
    ScanMeets(lines, a, b, c);
    SplitSortRows(value);
    NotAfterIsTotal();
    SortSorts(NotAfter, body);
    SortedBetween(lines, SortStrings(body), b + 1, c);
    assert body == [] ==> SortStrings(body) == [];
  }

  lemma SortedBetween(lines: seq<string>, body: seq<string>, start: nat, end: nat)
    requires start <= end <= |lines| && |body| == end - start && SortedBy(NotAfter, body)
    ensures var sorted := lines[..start] + body + lines[end..];
            && |sorted| == |lines| && sorted[..start] == lines[..start] && sorted[end..] == lines[end..]
            && sorted[start..end] == body
            && forall i, j :: start <= i < j < end ==> !Before(sorted[j], sorted[i])
  {
    var sorted := lines[..start] + body + lines[end..];
    forall i, j | start <= i < j < end ensures !Before(sorted[j], sorted[i]) {
      assert NotAfter(body[i - start], body[j - start]);
    }
  }

  /** A text without three borders stays as it is. */
  lemma TooFewBorders(value: string)
    requires forall a: nat, b: nat, c: nat :: !ThreeBorders(Split(value, '\n'), a, b, c)
    ensures SortRows(value) == value
  {
    var lines := Split(value, '\n');
    var x, y := ScanFinds(lines, 0, 0, -1, 0, 0);
    ScanBounds(lines, 0, 0, -1);
    JoinOfSplit(value, '\n');
  }

  // ---------- on a written table ----------

  lemma {:induction false} JoinSnoc(front: seq<string>, last: string)
    ensures Join(front + [last, ""], '\n') == Join(front + [""], '\n') + (last + "\n")
  {
    if front == [] {
      assert front + [last, ""] == [last, ""] && [last, ""][1..] == [""] && front + [""] == [""];
      assert Join([last, ""], '\n') == last + "\n" + "";
    } else {
      var rest := front[1..];
      JoinSnoc(rest, last);
      assert (front + [last, ""])[1..] == rest + [last, ""] && (front + [""])[1..] == rest + [""];
      Assoc(front[0] + ['\n'], Join(rest + [""], '\n'), last + "\n");
    }
  }

  lemma {:induction false} UnlinesIsJoin(lines: seq<string>)
    ensures Unlines(lines) == Join(lines + [""], '\n')
  {
    if lines == [] {
      assert lines + [""] == [""];
    } else {
      var front, last := lines[..|lines| - 1], lines[|lines| - 1];
      UnlinesIsJoin(front);
      JoinSnoc(front, last);
      assert lines + [""] == front + [last, ""];
    }
  }

  lemma {:induction false} ScanSkips(lines: seq<string>, i: nat, j: nat, count: nat, start: int)
    requires i <= j <= |lines| && forall k :: i <= k < j ==> !IsBorder(lines[k])
    ensures Scan(lines, i, count, start) == Scan(lines, j, count, start)
    decreases j - i
  {
    if i == j {
    } else {
      ScanSkips(lines, i + 1, j, count, start);
    }
  }

  lemma ScanOfTable(head: seq<string>, body: seq<string>, border: string)
    requires IsBorder(border)
    requires forall l :: l in head + body ==> !IsBorder(l)
    ensures Scan(TableLines(head, body, border) + [""], 0, 0, -1) == (2 + |head|, 2 + |head| + |body|)
  {
    var lines := TableLines(head, body, border) + [""];
    var second, third := 1 + |head|, 2 + |head| + |body|;
    assert lines[0] == lines[second] == lines[third] == border;
    assert forall k :: 1 <= k < second ==> lines[k] == head[k - 1];
    assert forall k :: second < k < third ==> lines[k] == body[k - second - 1];
    ScanSkips(lines, 1, second, 1, -1);
    ScanSkips(lines, second + 1, third, 2, second + 1);
  }

  /** Sorting a written table sorts exactly its body: borders and header lines stay where they are. */
  lemma {:induction false} SortRowsOfTable(headers: seq<string>, rows: seq<seq<string>>, widths: seq<nat>, alignments: seq<Alignment>)
    ensures var head := Row(headers, widths, alignments);
            var body := Body(rows, widths, alignments, |rows|);
            SortRows(Unlines(Table(headers, rows, widths, alignments)))
            == Unlines(TableLines(head, SortStrings(body), Border(widths)))
  {
    var head, body, border := Row(headers, widths, alignments), Body(rows, widths, alignments, |rows|), Border(widths);
    var width := DisplayWidth(widths);
    RowIsGood(headers, widths, alignments);
    BodyIsGood(rows, widths, alignments, |rows|);
    BorderIsGood(widths, |widths|);
    assert widths[..|widths|] == widths;
    SortGoodTable(head, body, border, width);
  }

  lemma NoNewlineInTable(head: seq<string>, body: seq<string>, border: string, width: int, p: string)
    requires AllGood(head, width) && AllGood(body, width) && GoodLine(border, '+', width)
    requires p in TableLines(head, body, border) + [""]
    ensures '\n' !in p
  {
    var lines := TableLines(head, body, border);
    Bordered(head, body, border, width);
    if p in lines {
      var k :| 0 <= k < |lines| && lines[k] == p;
    }
  }

  lemma GoodIsNoBorder(lines: seq<string>, width: int, l: string)
    requires AllGood(lines, width) && l in lines
    ensures !IsBorder(l)
  {
    var k :| 0 <= k < |lines| && lines[k] == l;
    assert GoodLine(lines[k], '|', width);
  }

  /** The lines of a table, as the sort cuts them. */
  lemma TableParts(head: seq<string>, body: seq<string>, border: string, start: nat, end: nat)
    requires start == 2 + |head| && end == start + |body|
    ensures var lines := TableLines(head, body, border) + [""];
            && |lines| == end + 2 && lines[start..end] == body
            && lines[..start] == [border] + head + [border] && lines[end..] == [border, ""]
            && lines == ([border] + head + [border]) + body + [border, ""]
  {
  }

  lemma SortGoodTable(head: seq<string>, body: seq<string>, border: string, width: int)
    requires AllGood(head, width) && AllGood(body, width) && GoodLine(border, '+', width)
    ensures SortRows(Unlines(TableLines(head, body, border))) == Unlines(TableLines(head, SortStrings(body), border))
  {
    var lines := TableLines(head, body, border);
    forall p | p in lines + [""] ensures '\n' !in p {
      NoNewlineInTable(head, body, border, width, p);
    }
    AppendGood(head, body, width);
    forall l | l in head + body ensures !IsBorder(l) {
      GoodIsNoBorder(head + body, width, l);
    }
    UnlinesIsJoin(lines);
    SplitOfJoin(lines + [""], '\n');
    SortTableLines(head, body, border);
    UnlinesIsJoin(TableLines(head, SortStrings(body), border));
  }

  lemma SortTableLines(head: seq<string>, body: seq<string>, border: string)
    requires IsBorder(border) && forall l :: l in head + body ==> !IsBorder(l)
    ensures SortBody(TableLines(head, body, border) + [""]) == TableLines(head, SortStrings(body), border) + [""]
  {
    var start, end := 2 + |head|, 2 + |head| + |body|;
    ScanOfTable(head, body, border);
    TableParts(head, body, border, start, end);
    TableParts(head, SortStrings(body), border, start, end);
    if body == [] {
      assert SortStrings(body) == body;
    }
  }
}
