/** What wrapping promises: pieces fit, nothing but white space is lost, short words stay whole. */
module WrappingLaws {
  import opened Text
  import opened Wrapping

  // ---------- pieces fit ----------

  lemma {:induction false} PiecesFit(style: Style, line: string, width: nat, p: string)
    requires width >= 1 && p in Pieces(style, line, width)
    ensures |p| <= width
    decreases |line|
  {
    if |line| > width {
      var (head, tail) := Divide(style, line, width);
      var rest := TrimLeft(tail);
      if rest != "" && p != head {
        PiecesFit(style, rest, width, p);
      }
    }
  }

  lemma {:induction false} LinesFit(style: Style, lines: seq<string>, width: nat, p: string)
    requires width >= 1 && p in WrapLines(style, lines, width)
    ensures |p| <= width
  {
    if p in WrapLine(style, lines[0], width) {
      if TrimRight(lines[0]) != "" {
        PiecesFit(style, TrimRight(lines[0]), width, p);
      }
    } else {
      LinesFit(style, lines[1..], width, p);
    }
  }

  lemma CellFits(value: string, width: nat, p: string)
    requires p in WrapCell(value, width)
    ensures |p| <= width
  {
    if width > 0 {
      LinesFit(AtSpace, Split(NormaliseNewlines(value, ' '), '\n'), width, p);
    }
  }

  lemma {:induction false} IdentifierCellFits(value: string, width: nat, p: string)
    requires width >= 1 && p in WrapIdentifierCell(value, width)
    ensures |p| <= width
  {
    LinesFit(AtHyphen, IdentifierLines(value), width, p);
  }

  // ---------- the line never empties inside the loop ----------

  ghost predicate Trimmed(line: string) {
    line != "" && !IsSpace(line[|line| - 1])
  }

  /** The loop's exit on an emptied line cannot be taken: a trimmed line leaves a trimmed, non-empty rest. */
  lemma RestNeverEmpty(style: Style, line: string, width: nat)
    requires 0 < width < |line| && Trimmed(line)
    ensures Trimmed(TrimLeft(Divide(style, line, width).1))
  {
    var tail := Divide(style, line, width).1;
    assert tail[|tail| - 1] == line[|line| - 1];
    TrimmedAlready(tail);
  }

  /** One round of the hyphen loop shortens a line exactly when the column has a width. */
  lemma ProgressIffWidth(line: string, width: nat)
    requires Trimmed(line) && !IsSpace(line[0]) && |line| > width
    ensures |TrimLeft(Divide(AtHyphen, line, width).1)| < |line| <==> width >= 1
    ensures width == 0 ==> Divide(AtHyphen, line, width) == ("", line) && TrimLeft(line) == line
  {
  }

  // ---------- only white space is lost ----------

  lemma DivideKeepsSolid(style: Style, line: string, width: nat)
    ensures Solid(Divide(style, line, width).0) + Solid(Divide(style, line, width).1) == Solid(line)
  {
    DivisionKeepsSolid(Divide(style, line, width), line);
  }

  lemma DivisionKeepsSolid(parts: (string, string), line: string)
    requires IsDivision(parts, line)
    ensures Solid(parts.0) + Solid(parts.1) == Solid(line)
  {
    var front := line[..|line| - |parts.1|];
    assert line == front + parts.1;
    SolidOfParts(front, parts.0, parts.1);
  }

  lemma SolidOfParts(front: string, head: string, tail: string)
    requires head == front || head == TrimRight(front)
    ensures Solid(head) + Solid(tail) == Solid(front + tail)
  {
    SolidTrimRight(front);
    SolidAppend(front, tail);
  }

  lemma LastPiecesSolid(head: string, tail: string, pieces: seq<string>)
    requires Solid(Concat(pieces)) == Solid(TrimLeft(tail))
    ensures Solid(Concat([head] + pieces)) == Solid(head) + Solid(tail)
  {
    SolidTrimLeft(tail);
    assert ([head] + pieces)[1..] == pieces;
    SolidAppend(head, Concat(pieces));
  }

  lemma {:induction false} PiecesKeepSolid(style: Style, line: string, width: nat)
    requires width >= 1
    ensures Solid(Concat(Pieces(style, line, width))) == Solid(line)
    decreases |line|
  {
    if |line| <= width {
      assert Concat([line]) == line + "" == line;
    } else {
      var (head, tail) := Divide(style, line, width);
      var rest := TrimLeft(tail);
      DivideKeepsSolid(style, line, width);
      if rest == "" {
        LastPiecesSolid(head, tail, []);
        assert [head] + [] == [head];
      } else {
        PiecesKeepSolid(style, rest, width);
        LastPiecesSolid(head, tail, Pieces(style, rest, width));
      }
    }
  }

  lemma WrapLineKeepsSolid(style: Style, line: string, width: nat)
    requires width >= 1
    ensures Solid(Concat(WrapLine(style, line, width))) == Solid(line)
  {
    SolidTrimRight(line);
    if TrimRight(line) == "" {
      assert Concat([""]) == "";
    } else {
      PiecesKeepSolid(style, TrimRight(line), width);
    }
  }

  lemma {:induction false} WrapLinesKeepSolid(style: Style, lines: seq<string>, width: nat)
    requires width >= 1
    ensures Solid(Concat(WrapLines(style, lines, width))) == Solid(Concat(lines))
  {
    if lines == [] {
    } else {
      var first := WrapLine(style, lines[0], width);
      WrapLineKeepsSolid(style, lines[0], width);
      WrapLinesKeepSolid(style, lines[1..], width);
      ConcatAppend(first, WrapLines(style, lines[1..], width));
      SolidAppend(Concat(first), Concat(WrapLines(style, lines[1..], width)));
      SolidAppend(lines[0], Concat(lines[1..]));
    }
  }

  lemma {:induction false} SplitKeepsSolid(value: string, sep: char)
    requires IsSpace(sep)
    ensures Solid(Concat(Split(value, sep))) == Solid(value)
  {
    if value == "" {
    } else {
      SplitKeepsSolid(value[1..], sep);
      var rest := Split(value[1..], sep);
      if value[0] != sep {
        var merged := [[value[0]] + rest[0]] + rest[1..];
        assert Concat(merged) == [value[0]] + Concat(rest) by {
          assert merged[1..] == rest[1..];
          Assoc([value[0]], rest[0], Concat(rest[1..]));
        }
      } else {
        assert Concat([""] + rest) == Concat(rest);
      }
    }
  }

  lemma {:induction false} NormaliseKeepsSolid(value: string, other: char)
    requires other != '\r' && IsSpace(other)
    ensures Solid(NormaliseNewlines(value, other)) == Solid(value)
  {
    if value == "" {
    } else {
      if |value| >= 2 && value[0] == '\r' && value[1] == '\n' {
        NormaliseKeepsSolid(value[2..], other);
        assert value[1..][1..] == value[2..];
      } else {
        NormaliseKeepsSolid(value[1..], other);
      }
    }
  }

  /** A cell of either style keeps its visible characters in order. */
  lemma CellKeepsSolid(value: string, width: nat)
    requires width >= 1
    ensures Solid(Concat(WrapCell(value, width))) == Solid(value)
    ensures Solid(Concat(WrapIdentifierCell(value, width))) == Solid(value)
  {
    NormaliseKeepsSolid(value, ' ');
    SplitKeepsSolid(NormaliseNewlines(value, ' '), '\n');
    WrapLinesKeepSolid(AtSpace, Split(NormaliseNewlines(value, ' '), '\n'), width);
    NormaliseKeepsSolid(value, '\n');
    SplitKeepsSolid(NormaliseNewlines(value, '\n'), '\n');
    WrapLinesKeepSolid(AtHyphen, Split(NormaliseNewlines(value, '\n'), '\n'), width);
  }

  // ---------- a value without white space is restored by joining its pieces ----------

  ghost predicate NoSpace(s: string) {
    forall c :: c in s ==> !IsSpace(c)
  }

  lemma DivideRestores(style: Style, line: string, width: nat)
    requires 0 < width < |line| && NoSpace(line)
    ensures var (head, tail) := Divide(style, line, width);
            head + tail == line && NoSpace(tail) && TrimLeft(tail) == tail && tail != ""
  {
    var (head, tail) := Divide(style, line, width);
    var front := line[..|line| - |tail|];
    assert line == front + tail;
    assert NoSpace(front) && NoSpace(tail);
    TrimmedAlready(front);
    TrimmedAlready(tail);
  }

  lemma {:induction false} PiecesRestore(style: Style, line: string, width: nat)
    requires width >= 1 && NoSpace(line)
    ensures Concat(Pieces(style, line, width)) == line
    decreases |line|
  {
    if |line| <= width {
      assert Concat([line]) == line + "" == line;
    } else {
      DivideRestores(style, line, width);
      PiecesRestore(style, Divide(style, line, width).1, width);
    }
  }

  lemma {:induction false} NormaliseNothing(value: string, other: char)
    requires other != '\r' && NoSpace(value)
    ensures NormaliseNewlines(value, other) == value
  {
    if value == "" {
    } else {
      assert !IsSpace(value[0]);
      NormaliseNothing(value[1..], other);
    }
  }

  /** Both cell paths; reference detection joins wrapped identifiers back on the strength of this. */
  lemma JoinRestores(value: string, width: nat)
    requires width >= 1 && NoSpace(value)
    ensures Concat(WrapCell(value, width)) == value == Concat(WrapIdentifierCell(value, width))
  {
    NormaliseNothing(value, ' ');
    NormaliseNothing(value, '\n');
    assert '\n' !in value by { assert IsSpace('\n'); }
    SplitNone(value, '\n');
    forall style | style == AtSpace || style == AtHyphen
      ensures Concat(WrapLines(style, [value], width)) == value
    {
      assert WrapLines(style, [value], width) == WrapLine(style, value, width) + [] == WrapLine(style, value, width);
      if value != "" {
        TrimmedAlready(value);
        PiecesRestore(style, value, width);
      }
    }
  }

  // ---------- where plain lines are cut ----------

  lemma {:induction false} TrimRightGrows(s: string, t: string)
    requires s <= t
    ensures TrimRight(s) <= TrimRight(t)
    decreases |t|
  {
    if s != t {
      if IsSpace(t[|t| - 1]) {
        TrimRightGrows(s, t[..|t| - 1]);
      }
    }
  }

  /** No later white space inside the width would have left more on the line. */
  lemma CutIsLatest(line: string, width: nat, j: nat)
    requires 0 < j < width < |line| && IsSpace(line[j])
    ensures TrimRight(line[..j]) <= Divide(AtSpace, line, width).0
  {
    var at := LastWhere(IsSpace, line, width - 1);
    assert line[..j] <= line[..at];
    TrimRightGrows(line[..j], line[..at]);
  }

  // ---------- the lines of a cell ----------

  /** A carriage return at the end of one part and a newline at the start of the next are read as one line end. */
  ghost predicate Meet(a: string, b: string) {
    a != "" && a[|a| - 1] == '\r' && b != "" && b[0] == '\n'
  }

  lemma NormaliseCons(c: char, s: string, other: char)
    requires other != '\r' && !Meet([c], s)
    ensures NormaliseNewlines([c] + s, other) == [if c == '\r' then other else c] + NormaliseNewlines(s, other)
  {
    var all := [c] + s;
    assert all[0] == c && all[1..] == s;
    assert s != "" ==> all[1] == s[0];
  }

  lemma NormalisePair(s: string, other: char)
    requires other != '\r'
    ensures NormaliseNewlines("\r\n" + s, other) == "\n" + NormaliseNewlines(s, other)
  {
    assert ("\r\n" + s)[2..] == s;
  }

  lemma {:induction false} NormaliseAppend(a: string, b: string, other: char)
    requires other != '\r' && !Meet(a, b)
    ensures NormaliseNewlines(a + b, other) == NormaliseNewlines(a, other) + NormaliseNewlines(b, other)
    decreases |a|
  {
    if a == "" {
      assert a + b == b;
    } else if |a| >= 2 && a[0] == '\r' && a[1] == '\n' {
      NormaliseAppend(a[2..], b, other);
      NormaliseAfterPair(a[2..], b, other);
      assert a == "\r\n" + a[2..];
    } else {
      NormaliseAppend(a[1..], b, other);
      NormaliseAfter(a[0], a[1..], b, other);
      assert a == [a[0]] + a[1..];
    }
  }

  ghost predicate Apart(a: string, b: string, other: char)
    requires other != '\r'
  {
    NormaliseNewlines(a + b, other) == NormaliseNewlines(a, other) + NormaliseNewlines(b, other)
  }

  lemma NormaliseAfterPair(rest: string, b: string, other: char)
    requires other != '\r' && Apart(rest, b, other)
    ensures Apart("\r\n" + rest, b, other)
  {
    Assoc("\r\n", rest, b);
    NormalisePair(rest, other);
    NormalisePair(rest + b, other);
    Assoc("\n", NormaliseNewlines(rest, other), NormaliseNewlines(b, other));
  }

  lemma NormaliseAfter(c: char, rest: string, b: string, other: char)
    requires other != '\r' && Apart(rest, b, other) && !Meet([c], rest) && !Meet([c] + rest, b)
    ensures Apart([c] + rest, b, other)
  {
    Assoc([c], rest, b);
    assert rest == "" ==> rest + b == b && [c] + rest == [c];
    NormaliseCons(c, rest, other);
    NormaliseCons(c, rest + b, other);
    Assoc([if c == '\r' then other else c], NormaliseNewlines(rest, other), NormaliseNewlines(b, other));
  }

  /** Both spellings of a line end become a newline, a lone carriage return becomes `other`, and the rest stays. */
  lemma NormaliseMeans(c: char, other: char)
    requires other != '\r'
    ensures NormaliseNewlines("\r\n", other) == "\n" && NormaliseNewlines("\r", other) == [other]
    ensures c != '\r' ==> NormaliseNewlines([c], other) == [c]
  {
    assert "\r\n"[2..] == "";
  }

  lemma WrapLinesCons(style: Style, line: string, lines: seq<string>, width: int)
    requires Wrappable(line, width) && AllWrappable(lines, width)
    ensures AllWrappable([line] + lines, width)
    ensures WrapLines(style, [line] + lines, width) == WrapLine(style, line, width) + WrapLines(style, lines, width)
  {
    assert ([line] + lines)[0] == line && ([line] + lines)[1..] == lines;
  }

  lemma {:induction false} WrapLinesAppend(style: Style, p: seq<string>, q: seq<string>, width: int)
    requires AllWrappable(p, width) && AllWrappable(q, width)
    ensures AllWrappable(p + q, width)
    ensures WrapLines(style, p + q, width) == WrapLines(style, p, width) + WrapLines(style, q, width)
  {
    if p == [] {
      assert p + q == q;
    } else {
      var line, rest := p[0], p[1..];
      assert p == [line] + rest && p + q == [line] + (rest + q);
      assert AllWrappable(rest, width) && Wrappable(line, width);
      WrapLinesAppend(style, rest, q, width);
      WrapLinesCons(style, line, rest, width);
      WrapLinesCons(style, line, rest + q, width);
      Assoc(WrapLine(style, line, width), WrapLines(style, rest, width), WrapLines(style, q, width));
    }
  }

  lemma NormaliseAround(a: string, b: string, other: char)
    requires other != '\r' && (a == "" || a[|a| - 1] != '\r')
    ensures NormaliseNewlines(a + "\n" + b, other) == NormaliseNewlines(a, other) + ['\n'] + NormaliseNewlines(b, other)
    ensures NormaliseNewlines(a + "\r\n" + b, other) == NormaliseNewlines(a, other) + ['\n'] + NormaliseNewlines(b, other)
  {
    NormaliseMeans('\n', other);
    NormaliseAppend(a, "\n", other);
    NormaliseAppend(a + "\n", b, other);
    NormaliseAppend(a, "\r\n", other);
    NormaliseAppend(a + "\r\n", b, other);
  }

  /** A line end in a cell, in either spelling, starts a new line, and the two sides are wrapped each on their own. */
  lemma CellLinesApart(a: string, b: string, width: int)
    requires width > 0 && (a == "" || a[|a| - 1] != '\r')
    ensures WrapCell(a + "\n" + b, width) == WrapCell(a, width) + WrapCell(b, width)
    ensures WrapCell(a + "\r\n" + b, width) == WrapCell(a, width) + WrapCell(b, width)
  {
    var p, q := NormaliseNewlines(a, ' '), NormaliseNewlines(b, ' ');
    NormaliseAround(a, b, ' ');
    SplitAround(p, q, '\n');
    WrapLinesAppend(AtSpace, Split(p, '\n'), Split(q, '\n'), width);
  }

  /** In a plain cell a lone carriage return is a blank. */
  lemma ReturnIsBlank(a: string, b: string, width: int)
    requires (a == "" || a[|a| - 1] != '\r') && (b == "" || b[0] != '\n')
    ensures WrapCell(a + "\r" + b, width) == WrapCell(a + " " + b, width)
  {
    NormaliseMeans(' ', ' ');
    NormaliseAppend(a, "\r", ' ');
    NormaliseAppend(a + "\r", b, ' ');
    NormaliseAppend(a, " ", ' ');
    NormaliseAppend(a + " ", b, ' ');
  }

  /** In an identifier cell all three line ends start a new line. */
  lemma IdentifierLinesApart(a: string, b: string)
    requires a == "" || a[|a| - 1] != '\r'
    ensures IdentifierLines(a + "\n" + b) == IdentifierLines(a) + IdentifierLines(b)
    ensures IdentifierLines(a + "\r\n" + b) == IdentifierLines(a) + IdentifierLines(b)
    ensures b == "" || b[0] != '\n' ==> IdentifierLines(a + "\r" + b) == IdentifierLines(a) + IdentifierLines(b)
  {
    NormaliseAround(a, b, '\n');
    SplitAround(NormaliseNewlines(a, '\n'), NormaliseNewlines(b, '\n'), '\n');
    if b == "" || b[0] != '\n' {
      NormaliseMeans('\n', '\n');
      NormaliseAppend(a, "\r", '\n');
      NormaliseAppend(a + "\r", b, '\n');
    }
  }

  // ---------- white space at the ends ----------

  /** Trailing white space changes nothing, and a line without anything else is one empty piece. */
  lemma TrailingIgnored(style: Style, line: string, blanks: string, width: int)
    requires Wrappable(line, width) && Blank(blanks)
    ensures Wrappable(line + blanks, width) && WrapLine(style, line + blanks, width) == WrapLine(style, line, width)
    ensures Blank(line) ==> WrapLine(style, line, width) == [""]
  {
    BlankAfter(line, blanks);
    TrimRightBlank(line);
  }

  ghost predicate StartsSolid(s: string) {
    s != "" && !IsSpace(s[0])
  }

  lemma HeadStartsSolid(style: Style, line: string, width: nat)
    requires 0 < width < |line| && StartsSolid(line)
    ensures StartsSolid(Divide(style, line, width).0)
  {
  }

  /** The pieces of a line that is cut are the head and the pieces of the trimmed rest. */
  lemma PiecesAfterCut(style: Style, line: string, width: nat) returns (rest: string)
    requires 0 < width < |line|
    ensures rest == TrimLeft(Divide(style, line, width).1) && |rest| < |line| && (rest == "" || StartsSolid(rest))
    ensures Pieces(style, line, width) == [Divide(style, line, width).0] + if rest == "" then [] else Pieces(style, rest, width)
  {
    rest := TrimLeft(Divide(style, line, width).1);
  }

  ghost predicate AllStartSolid(pieces: seq<string>) {
    forall k :: 0 <= k < |pieces| ==> StartsSolid(pieces[k])
  }

  lemma AllStartSolidCons(piece: string, pieces: seq<string>)
    requires StartsSolid(piece) && AllStartSolid(pieces)
    ensures AllStartSolid([piece] + pieces)
  {
  }

  lemma {:induction false} SolidStart(style: Style, line: string, width: nat)
    requires width >= 1 && StartsSolid(line)
    ensures AllStartSolid(Pieces(style, line, width))
    decreases |line|
  {
    if |line| > width {
      HeadStartsSolid(style, line, width);
      var rest := PiecesAfterCut(style, line, width);
      if rest != "" {
        SolidStart(style, rest, width);
      }
      AllStartSolidCons(Divide(style, line, width).0, if rest == "" then [] else Pieces(style, rest, width));
    } else {
      assert Pieces(style, line, width) == [line];
    }
  }

  lemma CutWhenSeveral(style: Style, line: string, width: nat)
    requires width >= 1
    ensures |WrapLine(style, line, width)| > 1 ==> |TrimRight(line)| > width
  {
  }

  /** Only the first piece of a line may start with white space: that of the line itself. */
  lemma LaterPiecesStartSolid(style: Style, line: string, width: nat, k: nat)
    requires width >= 1 && 0 < k < |WrapLine(style, line, width)|
    ensures StartsSolid(WrapLine(style, line, width)[k])
  {
    var trimmed := TrimRight(line);
    CutWhenSeveral(style, line, width);
    var rest := PiecesAfterCut(style, trimmed, width);
    if rest != "" {
      SolidStart(style, rest, width);
      assert StartsSolid(Pieces(style, rest, width)[k - 1]);
    }
  }
}
