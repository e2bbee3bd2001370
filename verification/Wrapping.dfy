/** Wrapping of table cells at white space, and at hyphens for identifiers. */
module Wrapping {
  import opened Text

  datatype Style = AtSpace | AtHyphen

  /** The largest index `k` with `1 <= k <= i` where `p` holds, or 0. */
  function LastWhere(p: char -> bool, line: string, i: nat): (k: nat)
    requires i < |line|
    ensures k <= i && (k > 0 ==> p(line[k]))
    ensures forall j :: k < j <= i ==> !p(line[j])
  {
    if i == 0 || p(line[i]) then i else LastWhere(p, line, i - 1)
  }

  /** The second part ends the line, and the first is all before it, perhaps without trailing white space. */
  ghost predicate IsDivision(parts: (string, string), line: string) {
    && |parts.1| <= |line| && line[|line| - |parts.1|..] == parts.1
    && (var front := line[..|line| - |parts.1|]; parts.0 == front || parts.0 == TrimRight(front))
  }

  function DivideAtSpace(line: string, width: nat): (parts: (string, string))
    requires width < |line|
    ensures IsDivision(parts, line) && |parts.0| <= width && (width > 0 ==> 0 < |parts.1| < |line|)
  {
    var space := if width > 0 then LastWhere(IsSpace, line, width - 1) else 0;
    var at := if space > 0 then space else width;
    var head := TrimRight(line[..at]);
    if head == "" then (line[..width], line[width..]) else (head, line[at..])
  }

  function Divide(style: Style, line: string, width: nat): (parts: (string, string))
    ensures IsDivision(parts, line)
    ensures |parts.0| <= width || |line| <= width
    ensures 0 < width < |line| ==> 0 < |parts.1| < |line|
  {
    if |line| <= width then (line, "")
    else
      var hyphen := if style == AtHyphen && width > 0 then LastWhere(c => c == '-', line, width - 1) else 0;
      if hyphen > 0 then (line[..hyphen + 1], line[hyphen + 1..]) else DivideAtSpace(line, width)
  }

  function Pieces(style: Style, line: string, width: nat): (pieces: seq<string>)
    requires width >= 1
    ensures pieces != []
    decreases |line|
  {
    if |line| <= width then [line]
    else
      var (head, tail) := Divide(style, line, width);
      var rest := TrimLeft(tail);
      if rest == "" then [head] else [head] + Pieces(style, rest, width)
  }

  /** What a wrapper needs: a width for its loop to make progress, unless the line has no visible characters. */
  predicate Wrappable(line: string, width: int) {
    width >= 1 || TrimRight(line) == ""
  }

  predicate AllWrappable(lines: seq<string>, width: int) {
    forall i :: 0 <= i < |lines| ==> Wrappable(lines[i], width)
  }

  function WrapLine(style: Style, line: string, width: int): (pieces: seq<string>)
    requires Wrappable(line, width)
    ensures pieces != []
  {
    var trimmed := TrimRight(line);
    if trimmed == "" then [""] else Pieces(style, trimmed, width)
  }

  // ---------- the program ----------

  method SplitTableLine(line: string, width: nat) returns (head: string, tail: string)
    ensures (head, tail) == Divide(AtSpace, line, width)
  {
    if |line| <= width {
      return line, "";
    }
    var splitAt := width;
    var i := width - 1;
    while i > 0
      invariant i < width
      invariant splitAt == width
      invariant width > 0 ==> i >= 0 && LastWhere(IsSpace, line, width - 1) == LastWhere(IsSpace, line, i)
    {
      if IsSpace(line[i]) {
        splitAt := i;
        break;
      }
      i := i - 1;
    }
    if splitAt == 0 {
      splitAt := width;
    }
    head, tail := TrimRight(line[..splitAt]), line[splitAt..];
    if head == "" {
      head, tail := line[..width], line[width..];
    }
  }

  method PrettySplitTableLineAtHyphen(line: string, width: nat) returns (head: string, tail: string)
    ensures (head, tail) == Divide(AtHyphen, line, width)
  {
    if |line| <= width {
      return line, "";
    }
    ghost var isHyphen := (c: char) => c == '-';
    var i := width - 1;
    while i > 0
      invariant i < width
      invariant width > 0 ==> i >= 0 && LastWhere(isHyphen, line, width - 1) == LastWhere(isHyphen, line, i)
    {
      if line[i] == '-' {
        return line[..i + 1], line[i + 1..];
      }
      i := i - 1;
    }
    head, tail := SplitTableLine(line, width);
  }

  method DivideLine(style: Style, line: string, width: nat) returns (head: string, tail: string)
    ensures (head, tail) == Divide(style, line, width)
  {
    if style == AtHyphen {
      head, tail := PrettySplitTableLineAtHyphen(line, width);
    } else {
      head, tail := SplitTableLine(line, width);
    }
  }

  /** After one more cut, the pieces so far and those of the rest still make up all pieces. */
  lemma OneMorePiece(wrapped: seq<string>, style: Style, line: string, width: nat, all: seq<string>)
    requires 0 < width < |line| && wrapped + Pieces(style, line, width) == all
    ensures var (head, tail) := Divide(style, line, width);
            var rest := TrimLeft(tail);
            (wrapped + [head]) + (if rest == "" then [] else Pieces(style, rest, width)) == all
  {
    var (head, tail) := Divide(style, line, width);
    var rest := TrimLeft(tail);
    Assoc(wrapped, [head], if rest == "" then [] else Pieces(style, rest, width));
  }

  /** The loop that both wrappers share; it ends because every cut shortens the line. */
  method WrapTableLine(style: Style, text: string, width: int) returns (wrapped: seq<string>)
    requires Wrappable(text, width)
    ensures wrapped == WrapLine(style, text, width)
  {
    var line := TrimRight(text);
    if line == "" {
      return [""];
    }
    ghost var all := Pieces(style, line, width);
    wrapped := [];
    while |line| > width
      invariant wrapped + Pieces(style, line, width) == all
      decreases |line|
    {
      OneMorePiece(wrapped, style, line, width, all);
      var head, tail := DivideLine(style, line, width);
      wrapped := wrapped + [head];
      line := TrimLeft(tail);
      if line == "" {
        return;
      }
    }
    wrapped := wrapped + [line];
  }

  // ---------- cells ----------

  /** `ReplaceAll(ReplaceAll(value, "\r\n", "\n"), "\r", other)`. */
  function NormaliseNewlines(value: string, other: char): (r: string)
    requires other != '\r'
    ensures '\r' !in r
  {
    if value == "" then ""
    else if |value| >= 2 && value[0] == '\r' && value[1] == '\n' then "\n" + NormaliseNewlines(value[2..], other)
    else [if value[0] == '\r' then other else value[0]] + NormaliseNewlines(value[1..], other)
  }

  function WrapLines(style: Style, lines: seq<string>, width: int): (pieces: seq<string>)
    requires AllWrappable(lines, width)
    ensures lines != [] ==> pieces != []
  {
    if lines == [] then [] else WrapLine(style, lines[0], width) + WrapLines(style, lines[1..], width)
  }

  function WrapCell(value: string, width: int): (pieces: seq<string>)
    ensures pieces != []
  {
    if width <= 0 then [""] else WrapLines(AtSpace, Split(NormaliseNewlines(value, ' '), '\n'), width)
  }

  function IdentifierLines(value: string): seq<string> {
    Split(NormaliseNewlines(value, '\n'), '\n')
  }

  /** The identifier path has no guard for width 0: its caller must supply a width for any visible character. */
  function WrapIdentifierCell(value: string, width: int): (pieces: seq<string>)
    requires AllWrappable(IdentifierLines(value), width)
    ensures pieces != []
  {
    WrapLines(AtHyphen, IdentifierLines(value), width)
  }

  lemma WrapLinesNext(style: Style, lines: seq<string>, width: int, i: nat)
    requires i < |lines| && AllWrappable(lines, width)
    ensures WrapLines(style, lines[i..], width) == WrapLine(style, lines[i], width) + WrapLines(style, lines[i + 1..], width)
  {
    assert lines[i..][1..] == lines[i + 1..];
  }

  /** After one more line, the pieces so far and those of the other lines still make up all pieces. */
  lemma OneMoreLine(wrapped: seq<string>, style: Style, lines: seq<string>, width: int, i: nat, all: seq<string>)
    requires i < |lines| && AllWrappable(lines, width) && wrapped + WrapLines(style, lines[i..], width) == all
    ensures (wrapped + WrapLine(style, lines[i], width)) + WrapLines(style, lines[i + 1..], width) == all
  {
    WrapLinesNext(style, lines, width, i);
    Assoc(wrapped, WrapLine(style, lines[i], width), WrapLines(style, lines[i + 1..], width));
  }

  method WrapAllLines(style: Style, lines: seq<string>, width: int) returns (wrapped: seq<string>)
    requires AllWrappable(lines, width)
    ensures wrapped == WrapLines(style, lines, width)
  {
    ghost var all := WrapLines(style, lines, width);
    wrapped := [];
    assert lines[0..] == lines;
    for i := 0 to |lines|
      invariant wrapped + WrapLines(style, lines[i..], width) == all
    {
      OneMoreLine(wrapped, style, lines, width, i, all);
      var pieces := WrapTableLine(style, lines[i], width);
      wrapped := wrapped + pieces;
    }
  }

  method PrettyWrapTableCell(value: string, width: int, atHyphen: bool) returns (wrapped: seq<string>)
    requires atHyphen ==> AllWrappable(IdentifierLines(value), width)
    ensures wrapped == if atHyphen then WrapIdentifierCell(value, width) else WrapCell(value, width)
  {
    if !atHyphen {
      if width <= 0 {
        return [""];
      }
      wrapped := WrapAllLines(AtSpace, Split(NormaliseNewlines(value, ' '), '\n'), width);
      if wrapped == [] {
        return [""];
      }
      return;
    }
    wrapped := WrapAllLines(AtHyphen, IdentifierLines(value), width);
  }
}
