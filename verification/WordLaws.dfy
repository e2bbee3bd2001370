/** What wrapping at white space does to words, exactly: when short words stay whole, and how long ones are cut. */
module WordLaws {
  import opened Text
  import opened Wrapping
  import opened WrappingLaws

  // ---------- short words stay whole ----------

  /** The words of all pieces, in order. */
  function AllFields(pieces: seq<string>): seq<string> {
    if pieces == [] then [] else Fields(pieces[0]) + AllFields(pieces[1..])
  }

  /** A word cut into stretches of `width`; a word that fits is left whole. */
  function Chop(w: string, width: nat): seq<string>
    requires width >= 1
  {
    if |w| <= width then [w] else [w[..width]] + Chop(w[width..], width)
  }

  function ChopAll(words: seq<string>, width: nat): seq<string>
    requires width >= 1
  {
    if words == [] then [] else Chop(words[0], width) + ChopAll(words[1..], width)
  }

  lemma {:induction false} ChopAllAppend(p: seq<string>, q: seq<string>, width: nat)
    requires width >= 1
    ensures ChopAll(p + q, width) == ChopAll(p, width) + ChopAll(q, width)
  {
    if p == [] {
      assert p + q == q;
    } else {
      ChopAllAppend(p[1..], q, width);
      assert (p + q)[1..] == p[1..] + q;
      Assoc(Chop(p[0], width), ChopAll(p[1..], width), ChopAll(q, width));
    }
  }

  lemma {:induction false} ShortWordsUnchopped(words: seq<string>, width: nat)
    requires width >= 1 && forall w :: w in words ==> |w| <= width
    ensures ChopAll(words, width) == words
  {
    if words == [] {
    } else {
      ShortWordsUnchopped(words[1..], width);
    }
  }

  lemma ShortLineUnchopped(line: string, width: nat)
    requires width >= 1 && |line| <= width
    ensures ChopAll(Fields(line), width) == Fields(line)
  {
    forall w | w in Fields(line) ensures |w| <= width {
      FieldsAreWords(line, w);
    }
    ShortWordsUnchopped(Fields(line), width);
  }

  /** The words of the head are those of the characters before the cut. */
  lemma HeadWords(parts: (string, string), line: string)
    requires IsDivision(parts, line)
    ensures var front := line[..|line| - |parts.1|]; Fields(parts.0) == Fields(front) && line == front + parts.1
  {
    FieldsTrimRight(line[..|line| - |parts.1|]);
  }

  /** A cut at white space, with everything before it short enough, chops no word. */
  lemma CleanCut(line: string, width: nat)
    requires 0 < width < |line|
    requires var tail := Divide(AtSpace, line, width).1; StartsBlank(tail) && |line| - |tail| <= width
    ensures var (head, tail) := Divide(AtSpace, line, width);
            ChopAll(Fields(line), width) == Fields(head) + ChopAll(Fields(TrimLeft(tail)), width)
  {
    var (head, tail) := Divide(AtSpace, line, width);
    var front := line[..|line| - |tail|];
    HeadWords((head, tail), line);
    FieldsAppend(front, tail);
    FieldsTrimLeft(tail);
    ChopAllAppend(Fields(front), Fields(tail), width);
    ShortLineUnchopped(front, width);
  }

  lemma LongWordDivide(line: string, width: nat)
    requires 0 < width < |line| && |FirstWord(line)| > width
    ensures Divide(AtSpace, line, width) == (line[..width], line[width..])
  {
    var w := FirstWord(line);
    assert forall i :: 0 <= i <= width ==> line[i] == w[i];
    TrimmedAlready(line[..width]);
  }

  lemma LongWordFields(w: string, after: string, width: nat)
    requires 0 < width < |w| && NoSpace(w) && StartsBlank(after)
    ensures ChopAll(Fields(w + after), width)
            == Fields(w[..width]) + ChopAll(Fields(w[width..] + after), width)
  {
    var front, back := w[..width], w[width..];
    assert front + "" == front;
    FieldsOfWord(front, "");
    FieldsOfWord(back, after);
    FieldsOfWord(w, after);
    ChopLong(w, Fields(after), width);
    assert [front] + [] == [front];
  }

  /** A cut inside the first word of the line happens only when that word is too long. */
  lemma LongWordCut(line: string, width: nat)
    requires 0 < width < |line| && |FirstWord(line)| > width
    ensures var (head, tail) := Divide(AtSpace, line, width);
            tail != "" && TrimLeft(tail) == tail
            && ChopAll(Fields(line), width) == Fields(head) + ChopAll(Fields(tail), width)
  {
    var w := FirstWord(line);
    var after := line[|w|..];
    assert line == w + after;
    assert line[..width] == w[..width] && line[width..] == w[width..] + after && line[width] == w[width];
    LongWordDivide(line, width);
    LongWordFields(w, after, width);
    TrimmedAlready(line[width..]);
  }

  lemma ChopLong(w: string, words: seq<string>, width: nat)
    requires 0 < width < |w|
    ensures ChopAll([w] + words, width) == [w[..width]] + ChopAll([w[width..]] + words, width)
  {
    assert ([w] + words)[1..] == words == ([w[width..]] + words)[1..];
    Assoc([w[..width]], Chop(w[width..], width), ChopAll(words, width));
  }

  /** From a line that starts with a word, wrapping chops exactly the words longer than `width`. */
  lemma {:induction false} PiecesChopOnlyLongWords(line: string, width: nat)
    requires width >= 1 && Trimmed(line) && !IsSpace(line[0])
    ensures AllFields(Pieces(AtSpace, line, width)) == ChopAll(Fields(line), width)
    decreases |line|
  {
    if |line| <= width {
      ShortLineUnchopped(line, width);
      assert AllFields([line]) == Fields(line) + [] == Fields(line);
    } else {
      var (head, tail) := Divide(AtSpace, line, width);
      var rest := TrimLeft(tail);
      RestNeverEmpty(AtSpace, line, width);
      PiecesChopOnlyLongWords(rest, width);
      if |FirstWord(line)| > width {
        LongWordCut(line, width);
      } else {
        FirstWordFits(line, width);
        CleanCut(line, width);
      }
    }
  }

  lemma FirstWordAtFront(line: string)
    requires line != "" && !IsSpace(line[0])
    ensures FirstWordAt(line, 0, |FirstWord(line)|)
  {
    FirstWordBegins(line);
    WordInside(line, 0, line, FirstWord(line));
  }

  /** When the first word fits, the cut falls on white space inside the width. */
  lemma FirstWordFits(line: string, width: nat)
    requires 0 < width < |line| && !IsSpace(line[0]) && |FirstWord(line)| <= width
    ensures var tail := Divide(AtSpace, line, width).1; StartsBlank(tail) && |line| - |tail| <= width
  {
    FirstWordAtFront(line);
    CutPlace(line, width, 0, |FirstWord(line)|);
  }

  // ---------- exactly when: the effect of leading white space ----------

  lemma {:induction false} TrimLeftDrop(s: string, n: nat)
    requires n <= |s| - |TrimLeft(s)|
    ensures TrimLeft(s[n..]) == TrimLeft(s)
  {
    if n == 0 {
      assert s[0..] == s;
    } else {
      assert IsSpace(s[0]);
      assert s[n..] == s[1..][n - 1..];
      TrimLeftDrop(s[1..], n - 1);
    }
  }

  /** The first word of the line stands at `[indent..end)`, after blanks only. */
  ghost predicate FirstWordAt(line: string, indent: nat, end: nat) {
    && indent < end <= |line|
    && (forall i :: 0 <= i < indent ==> IsSpace(line[i]))
    && (forall i :: indent <= i < end ==> !IsSpace(line[i]))
    && (end < |line| ==> IsSpace(line[end]))
  }

  ghost predicate Indented(line: string, body: string) {
    && |body| <= |line| && line[|line| - |body|..] == body
    && forall i :: 0 <= i < |line| - |body| ==> IsSpace(line[i])
  }

  ghost predicate Begins(body: string, w: string) {
    w != "" && w <= body && NoSpace(w) && (|w| < |body| ==> IsSpace(body[|w|]))
  }

  lemma TrimmedIsIndented(line: string)
    requires Trimmed(line)
    ensures var body := TrimLeft(line); Indented(line, body) && body != "" && !IsSpace(body[0])
  {
    TrimmedAlready(line);
  }

  lemma FirstWordBegins(body: string)
    requires body != "" && !IsSpace(body[0])
    ensures Begins(body, FirstWord(body))
  {
  }

  lemma FindFirstWord(line: string, body: string, w: string)
    requires Trimmed(line) && body == TrimLeft(line) && w == FirstWord(body)
    ensures var indent := |line| - |body|;
            indent >= 0 && FirstWordAt(line, indent, indent + |w|)
  {
    TrimmedIsIndented(line);
    FirstWordBegins(body);
    WordAfterBlanks(line, body, w);
  }

  lemma WordAfterBlanks(line: string, body: string, w: string)
    requires Indented(line, body) && Begins(body, w)
    ensures var indent := |line| - |body|;
            FirstWordAt(line, indent, indent + |w|)
  {
    WordInside(line, |line| - |body|, body, w);
  }

  lemma WordInside(line: string, indent: nat, body: string, w: string)
    requires indent <= |line| && line[indent..] == body && w <= body && NoSpace(w)
    ensures forall i :: indent <= i < indent + |w| ==> !IsSpace(line[i])
    ensures |w| < |body| ==> line[indent + |w|] == body[|w|]
  {
    forall i | indent <= i < indent + |w| ensures !IsSpace(line[i]) {
      assert line[i] == body[i - indent] == w[i - indent];
      assert w[i - indent] in w;
    }
  }

  /** A first word that ends inside the column: the cut falls on white space behind it. */
  lemma CutBehindWord(line: string, width: nat, indent: nat, end: nat)
    requires 0 < width < |line| && FirstWordAt(line, indent, end) && end < width
    ensures var tail := Divide(AtSpace, line, width).1; StartsBlank(tail) && |line| - |tail| <= width
  {
    var space := LastWhere(IsSpace, line, width - 1);
    assert space >= end;
    TrimRightBlank(line[..space]);
    assert line[..space][indent] == line[indent];
  }

  /** Only blanks before the place where the last white space leaves to cut: the cut falls at the width. */
  lemma CutAmongBlanks(line: string, width: nat, at: nat)
    requires 0 < width < |line| && at <= width && forall i :: 0 <= i < at ==> IsSpace(line[i])
    requires var space := LastWhere(IsSpace, line, width - 1); at == if space > 0 then space else width
    ensures Divide(AtSpace, line, width) == (line[..width], line[width..])
  {
    TrimRightBlank(line[..at]);
  }

  lemma CutWithoutBlank(line: string, width: nat)
    requires 0 < width < |line| && LastWhere(IsSpace, line, width - 1) == 0 && !IsSpace(line[width - 1])
    ensures Divide(AtSpace, line, width) == (line[..width], line[width..])
  {
    TrimmedAlready(line[..width]);
  }

  /** A first word that reaches the width: the cut falls at the width. */
  lemma CutAtWidth(line: string, width: nat, indent: nat, end: nat)
    requires 0 < width < |line| && FirstWordAt(line, indent, end) && end >= width
    ensures Divide(AtSpace, line, width) == (line[..width], line[width..])
  {
    var space := LastWhere(IsSpace, line, width - 1);
    if indent >= width {
      CutAmongBlanks(line, width, if space > 0 then space else width);
    } else if space > 0 {
      assert space < indent;
      CutAmongBlanks(line, width, space);
    } else {
      CutWithoutBlank(line, width);
    }
  }

  /** Where the line is cut, in terms of its first word. */
  lemma CutPlace(line: string, width: nat, indent: nat, end: nat)
    requires 0 < width < |line| && FirstWordAt(line, indent, end)
    ensures var (head, tail) := Divide(AtSpace, line, width);
            && (end < width ==> StartsBlank(tail) && |line| - |tail| <= width)
            && (end >= width ==> head == line[..width] && tail == line[width..])
  {
    if end < width {
      CutBehindWord(line, width, indent, end);
    } else {
      CutAtWidth(line, width, indent, end);
    }
  }

  /** More leading white space than the column holds: the first piece is blank and the rest starts with a word. */
  lemma IndentBeyondWidth(line: string, width: nat, indent: nat, end: nat)
    requires 0 < width <= indent && width < |line| && FirstWordAt(line, indent, end)
    requires indent == |line| - |TrimLeft(line)|
    ensures Fields(Divide(AtSpace, line, width).0) == []
    ensures TrimLeft(Divide(AtSpace, line, width).1) == TrimLeft(line)
  {
    var head, tail := line[..width], line[width..];
    CutAtWidth(line, width, indent, end);
    BlankHasNoFields(head);
    TrimLeftDrop(line, width);
    assert Divide(AtSpace, line, width) == (head, tail);
  }

  lemma {:induction false} BlankHasNoFields(s: string)
    requires forall i :: 0 <= i < |s| ==> IsSpace(s[i])
    ensures Fields(s) == []
  {
    if s == "" {
    } else {
      BlankHasNoFields(s[1..]);
    }
  }

  /** The indented first word does not fit: it is cut although it may be short. */
  lemma IndentedWordSplit(line: string, width: nat, indent: nat, end: nat)
    requires 0 < indent < width < |line| && width < end && FirstWordAt(line, indent, end)
    ensures Fields(Divide(AtSpace, line, width).0) == [line[indent..width]]
  {
    var blank, w := line[..indent], line[indent..width];
    assert line[..width] == blank + w && w + "" == w;
    CutPlace(line, width, indent, end);
    FieldsOfIndentedWord(blank, w);
  }

  lemma {:induction false} FieldsOfIndentedWord(blank: string, w: string)
    requires (forall i :: 0 <= i < |blank| ==> IsSpace(blank[i])) && w != "" && NoSpace(w)
    ensures Fields(blank + w) == [w]
  {
    if blank == "" {
      assert blank + w == w + "";
      FieldsOfWord(w, "");
    } else {
      FieldsOfIndentedWord(blank[1..], w);
      assert (blank + w)[1..] == blank[1..] + w;
    }
  }

  // ---------- long words in stretches of the width ----------

  /** The words of the pieces are those of the line, the long ones in stretches of `width`. */
  ghost predicate Chopped(line: string, width: nat)
    requires width >= 1
  {
    AllFields(Pieces(AtSpace, line, width)) == ChopAll(Fields(line), width)
  }

  lemma FirstChop(words: seq<string>, width: nat)
    requires width >= 1 && words != []
    ensures ChopAll(words, width) != [] && |ChopAll(words, width)[0]| == if |words[0]| <= width then |words[0]| else width
  {
  }

  lemma FirstPiece(line: string, width: nat)
    requires 0 < width < |line| && Trimmed(line)
    ensures var (head, tail) := Divide(AtSpace, line, width);
            AllFields(Pieces(AtSpace, line, width)) == Fields(head) + AllFields(Pieces(AtSpace, TrimLeft(tail), width))
  {
    RestNeverEmpty(AtSpace, line, width);
  }

  lemma ShortLineChopped(line: string, width: nat)
    requires width >= 1 && |line| <= width
    ensures Chopped(line, width)
  {
    ShortLineUnchopped(line, width);
    assert AllFields([line]) == Fields(line) + [] == Fields(line);
  }

  lemma HarmlessIndent(line: string, width: nat, indent: nat, end: nat)
    requires 0 < width < |line| && Trimmed(line) && FirstWordAt(line, indent, end)
    requires indent == |line| - |TrimLeft(line)|
    requires indent >= width || end <= width
    ensures Chopped(line, width)
  {
    var rest := TrimLeft(Divide(AtSpace, line, width).1);
    RestNeverEmpty(AtSpace, line, width);
    FirstPiece(line, width);
    PiecesChopOnlyLongWords(rest, width);
    if indent >= width {
      IndentBeyondWidth(line, width, indent, end);
      FieldsTrimLeft(line);
    } else {
      CutPlace(line, width, indent, end);
      CleanCut(line, width);
    }
  }

  /** The first word found in the pieces is only the part of the indented word that the first piece has room for. */
  lemma FirstFound(line: string, width: nat, indent: nat, end: nat)
    requires 0 < indent < width < |line| && width < end && Trimmed(line) && FirstWordAt(line, indent, end)
    ensures var found := AllFields(Pieces(AtSpace, line, width)); found != [] && |found[0]| == width - indent
  {
    FirstPiece(line, width);
    IndentedWordSplit(line, width, indent, end);
    assert AllFields(Pieces(AtSpace, line, width))[0] == line[indent..width];
  }

  lemma FirstField(line: string)
    requires Trimmed(line)
    ensures Fields(line) != [] && |Fields(line)[0]| == |FirstWord(TrimLeft(line))|
  {
    TrimmedIsIndented(line);
    FieldsTrimLeft(line);
  }

  /** A line with its first word at `[indent..end)`, longer than the column. */
  ghost predicate LongLine(line: string, width: nat, indent: nat, end: nat) {
    && 0 < width < |line| && Trimmed(line) && FirstWordAt(line, indent, end)
    && indent == |line| - |TrimLeft(line)|
    && Fields(line) != [] && |Fields(line)[0]| == end - indent
  }

  lemma LongLineFor(line: string, width: nat)
    requires 0 < width < |line| && Trimmed(line)
    ensures var indent, first := |line| - |TrimLeft(line)|, |FirstWord(TrimLeft(line))|;
            indent >= 0 && LongLine(line, width, indent, indent + first)
  {
    FindFirstWord(line, TrimLeft(line), FirstWord(TrimLeft(line)));
    FirstField(line);
  }

  lemma LongLineChoppedIff(line: string, width: nat, indent: nat, end: nat)
    requires LongLine(line, width, indent, end)
    ensures Chopped(line, width) <==> indent == 0 || indent >= width || end <= width
  {
    if indent == 0 {
      PiecesChopOnlyLongWords(line, width);
    } else if indent >= width || end <= width {
      HarmlessIndent(line, width, indent, end);
    } else {
      FirstFound(line, width, indent, end);
      FirstChop(Fields(line), width);
    }
  }

  /** Where the indent and the first word of a line end: all that the exact conditions depend on. */
  function IndentOf(line: string): nat {
    |line| - |TrimLeft(line)|
  }

  function FirstLength(line: string): nat {
    |FirstWord(TrimLeft(line))|
  }

  lemma FirstWordWithin(line: string)
    ensures IndentOf(line) + FirstLength(line) <= |line|
  {
  }

  /** A line without visible characters is one empty piece; any other is wrapped without its trailing white space. */
  lemma WrapLineOfTrimmed(text: string, width: nat)
    requires width >= 1
    ensures var line := TrimRight(text);
            && Fields(text) == Fields(line)
            && (line == "" || Trimmed(line))
            && AllFields(WrapLine(AtSpace, text, width)) == AllFields(Pieces(AtSpace, line, width))
  {
    FieldsTrimRight(text);
    NoFields();
  }

  lemma NoFields()
    ensures AllFields([""]) == [] && Fields("") == []
  {
    assert AllFields([""]) == Fields("") + [];
  }

  /** A trimmed line of any length with its indent and the length of its first word. */
  ghost predicate AnyLine(line: string, width: nat, indent: nat, first: nat) {
    width >= 1 && indent + first <= |line| && (|line| > width ==> LongLine(line, width, indent, indent + first))
  }

  lemma AnyLineFor(line: string, width: nat)
    requires width >= 1 && (line == "" || Trimmed(line))
    ensures AnyLine(line, width, IndentOf(line), FirstLength(line))
  {
    FirstWordWithin(line);
    if |line| > width {
      LongLineFor(line, width);
    }
  }

  lemma AnyLineChoppedIff(line: string, width: nat, indent: nat, first: nat)
    requires AnyLine(line, width, indent, first)
    ensures Chopped(line, width) <==> indent == 0 || indent >= width || indent + first <= width
  {
    if |line| <= width {
      ShortLineChopped(line, width);
    } else {
      LongLineChoppedIff(line, width, indent, indent + first);
    }
  }

  /**
   * Every long word comes out in stretches of `width`, and every other word whole, exactly when the line has no
   * leading white space, or at least `width` of it, or the indented first word still fits.
   */
  lemma {:induction false} ChoppedIff(text: string, width: nat)
    requires width >= 1
    ensures var line := TrimRight(text);
            AllFields(WrapLine(AtSpace, text, width)) == ChopAll(Fields(text), width)
            <==> IndentOf(line) == 0 || IndentOf(line) >= width || IndentOf(line) + FirstLength(line) <= width
  {
    var line := TrimRight(text);
    WrapLineOfTrimmed(text, width);
    AnyLineFor(line, width);
    AnyLineChoppedIff(line, width, IndentOf(line), FirstLength(line));
  }

  // ---------- only long words cut, anywhere ----------

  /** `parts` make up the word `w`, which is cut only when it is longer than `width`. */
  ghost predicate IsCutOf(parts: seq<string>, w: string, width: nat) {
    Concat(parts) == w && (|w| <= width ==> parts == [w])
  }

  /** The words found make up `words`, in order, and none of at most `width` characters is split. */
  ghost predicate CutsOnlyLong(found: seq<string>, words: seq<string>, width: nat) {
    if words == [] then found == []
    else exists n :: 0 < n <= |found| && IsCutOf(found[..n], words[0], width) && CutsOnlyLong(found[n..], words[1..], width)
  }

  lemma CutsNext(parts: seq<string>, w: string, found: seq<string>, words: seq<string>, width: nat)
    requires parts != [] && IsCutOf(parts, w, width) && CutsOnlyLong(found, words, width)
    ensures CutsOnlyLong(parts + found, [w] + words, width)
  {
    var all := parts + found;
    assert all[..|parts|] == parts && all[|parts|..] == found && ([w] + words)[1..] == words;
  }

  lemma {:induction false} ChopMakesWord(w: string, width: nat)
    requires width >= 1
    ensures Chop(w, width) != [] && Concat(Chop(w, width)) == w
    ensures |w| <= width ==> Chop(w, width) == [w]
  {
    if |w| <= width {
      assert Concat([w]) == w + "" == w;
    } else {
      ChopMakesWord(w[width..], width);
      var parts := Chop(w[width..], width);
      assert ([w[..width]] + parts)[1..] == parts;
      assert w == w[..width] + w[width..];
    }
  }

  lemma {:induction false} ChopAllCutsOnlyLong(words: seq<string>, width: nat)
    requires width >= 1
    ensures CutsOnlyLong(ChopAll(words, width), words, width)
  {
    if words == [] {
      assert ChopAll(words, width) == [];
    } else {
      ChopMakesWord(words[0], width);
      ChopAllCutsOnlyLong(words[1..], width);
      CutsNext(Chop(words[0], width), words[0], ChopAll(words[1..], width), words[1..], width);
      assert words == [words[0]] + words[1..];
    }
  }

  lemma FirstShortIsWhole(found: seq<string>, words: seq<string>, width: nat)
    requires CutsOnlyLong(found, words, width) && words != [] && |words[0]| <= width
    ensures found != [] && found[0] == words[0]
  {
    var n :| 0 < n <= |found| && IsCutOf(found[..n], words[0], width) && CutsOnlyLong(found[n..], words[1..], width);
    assert found[0] == found[..n][0];
  }

  /** What follows the first piece of an indented long word starts with the rest of that word. */
  lemma RestOfLongWord(line: string, width: nat, indent: nat, end: nat)
    requires LongLine(line, width, indent, end) && 0 < indent < width < end
    ensures var rest := line[width..];
            && AllFields(Pieces(AtSpace, line, width)) == [line[indent..width]] + ChopAll(Fields(rest), width)
  {
    var rest := line[width..];
    CutPlace(line, width, indent, end);
    IndentedWordSplit(line, width, indent, end);
    FirstPiece(line, width);
    TrimmedAlready(rest);
    PiecesChopOnlyLongWords(rest, width);
  }

  lemma WordsOfIndented(line: string, width: nat, indent: nat, end: nat)
    requires LongLine(line, width, indent, end) && indent < width < end
    ensures Fields(line) == [line[indent..end]] + Fields(line[end..])
    ensures Fields(line[width..]) == [line[width..end]] + Fields(line[end..])
  {
    FieldsTrimLeft(line);
    TrimLeftIsSuffix(line);
    assert TrimLeft(line) == line[indent..];
    WordThere(line, indent, end);
    WordThere(line, width, end);
  }

  lemma WordThere(line: string, from: nat, end: nat)
    requires from < end <= |line| && (forall i :: from <= i < end ==> !IsSpace(line[i])) && (end < |line| ==> IsSpace(line[end]))
    ensures Fields(line[from..]) == [line[from..end]] + Fields(line[end..])
  {
    assert line[from..] == line[from..end] + line[end..];
    FieldsOfWord(line[from..end], line[end..]);
  }

  /** The parts of a long word: what the first piece has room for, and the rest in stretches of `width`. */
  lemma PartsOfLongWord(front: string, back: string, width: nat)
    requires width >= 1 && |front + back| > width
    ensures IsCutOf([front] + Chop(back, width), front + back, width)
  {
    ChopMakesWord(back, width);
    assert ([front] + Chop(back, width))[1..] == Chop(back, width);
  }

  lemma Glued(line: string, i: nat, j: nat, k: nat)
    requires i <= j <= k <= |line|
    ensures line[i..j] + line[j..k] == line[i..k]
  {
  }

  /** A first word longer than the column is cut at the wrong places by an indent, but it is the only one cut there. */
  lemma LongFirstWord(line: string, width: nat, indent: nat, end: nat, found: seq<string>, words: seq<string>)
    requires LongLine(line, width, indent, end) && 0 < indent < width && end - indent > width
    requires found == AllFields(Pieces(AtSpace, line, width)) && words == Fields(line)
    ensures CutsOnlyLong(found, words, width)
  {
    var front, back := line[indent..width], line[width..end];
    Glued(line, indent, width, end);
    RestOfLongWord(line, width, indent, end);
    WordsOfIndented(line, width, indent, end);
    LongWordThenOthers(found, words, front, back, Fields(line[end..]), Fields(line[width..]), width);
  }

  lemma LongWordThenOthers(found: seq<string>, words: seq<string>, front: string, back: string, after: seq<string>,
                           rest: seq<string>, width: nat)
    requires width >= 1 && |front + back| > width
    requires found == [front] + ChopAll(rest, width) && rest == [back] + after && words == [front + back] + after
    ensures CutsOnlyLong(found, words, width)
  {
    PartsOfLongWord(front, back, width);
    ChopAllCutsOnlyLong(after, width);
    CutsNext([front] + Chop(back, width), front + back, ChopAll(after, width), after, width);
    ChopFirst(front, back, after, width);
  }

  lemma ChopFirst(front: string, back: string, after: seq<string>, width: nat)
    requires width >= 1
    ensures [front] + ChopAll([back] + after, width) == ([front] + Chop(back, width)) + ChopAll(after, width)
  {
    assert ([back] + after)[1..] == after;
    Assoc([front], Chop(back, width), ChopAll(after, width));
  }

  lemma LongLineKeptIff(line: string, width: nat, indent: nat, end: nat)
    requires LongLine(line, width, indent, end)
    ensures CutsOnlyLong(AllFields(Pieces(AtSpace, line, width)), Fields(line), width)
            <==> indent == 0 || indent >= width || end <= width || end - indent > width
  {
    if indent == 0 || indent >= width || end <= width {
      LongLineChoppedIff(line, width, indent, end);
      ChopAllCutsOnlyLong(Fields(line), width);
    } else if end - indent > width {
      LongFirstWord(line, width, indent, end, AllFields(Pieces(AtSpace, line, width)), Fields(line));
    } else {
      FirstFound(line, width, indent, end);
      if CutsOnlyLong(AllFields(Pieces(AtSpace, line, width)), Fields(line), width) {
        FirstShortIsWhole(AllFields(Pieces(AtSpace, line, width)), Fields(line), width);
      }
    }
  }

  lemma AnyLineKeptIff(line: string, width: nat, indent: nat, first: nat)
    requires AnyLine(line, width, indent, first)
    ensures CutsOnlyLong(AllFields(Pieces(AtSpace, line, width)), Fields(line), width)
            <==> indent == 0 || indent >= width || indent + first <= width || first > width
  {
    if |line| <= width {
      ShortLineChopped(line, width);
      ChopAllCutsOnlyLong(Fields(line), width);
    } else {
      LongLineKeptIff(line, width, indent, indent + first);
    }
  }

  /**
   * No word of at most `width` characters is split, exactly when the line has no leading white space, or at least
   * `width` of it, or the indented first word still fits, or that word is itself longer than `width`.
   */
  lemma {:induction false} WordsKeptIff(text: string, width: nat)
    requires width >= 1
    ensures var line := TrimRight(text);
            var indent, first := IndentOf(line), FirstLength(line);
            CutsOnlyLong(AllFields(WrapLine(AtSpace, text, width)), Fields(text), width)
            <==> indent == 0 || indent >= width || indent + first <= width || first > width
  {
    var line := TrimRight(text);
    WrapLineOfTrimmed(text, width);
    AnyLineFor(line, width);
    AnyLineKeptIff(line, width, IndentOf(line), FirstLength(line));
  }

  /** A short word that an indent makes the wrapper split. */
  lemma IndentSplitsWord(line: string, width: nat)
    requires line == " aa" && width == 2
    ensures !CutsOnlyLong(AllFields(WrapLine(AtSpace, line, width)), Fields(line), width)
  {
    assert !IsSpace('a') && IsSpace(' ');
    TrimmedAlready(line);
    var body := line[1..];
    assert body == "aa" && TrimLeft(line) == TrimLeft(body);
    TrimmedAlready(body);
    FirstWordIs(body, "");
    assert body + "" == body;
    WordsKeptIff(line, width);
  }
}
