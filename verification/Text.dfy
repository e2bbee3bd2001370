/** The string helpers of Go's `strings` and `unicode` packages that the program uses. */
module Text {

  /** `unicode.IsSpace`. */
  predicate IsSpace(c: char) {
    || '\t' <= c <= '\r'
    || c == ' ' || c == '\U{85}' || c == '\U{A0}' || c == '\U{1680}'
    || '\U{2000}' <= c <= '\U{200A}' || '\U{2028}' <= c <= '\U{2029}'
    || c == '\U{202F}' || c == '\U{205F}' || c == '\U{3000}'
  }

  /** The ASCII characters that are white space, and how many others are. */
  lemma WhiteSpaceIs(c: char)
    ensures c < '\U{80}' ==> (IsSpace(c) <==> c in " \t\n\U{B}\U{C}\r")
    ensures c >= '\U{80}' ==>
              (IsSpace(c) <==> c in "\U{85}\U{A0}\U{1680}\U{2028}\U{2029}\U{202F}\U{205F}\U{3000}" || 0 <= c as int - 0x2000 <= 10)
  {
  }

  function TrimLeft(s: string): (r: string)
    ensures |r| <= |s|
    ensures r == "" || !IsSpace(r[0])
    ensures forall i :: 0 <= i < |s| - |r| ==> IsSpace(s[i])
  {
    if s != "" && IsSpace(s[0]) then TrimLeft(s[1..]) else s
  }

  lemma {:induction false} TrimLeftIsSuffix(s: string)
    ensures s[|s| - |TrimLeft(s)|..] == TrimLeft(s)
  {
    if s != "" && IsSpace(s[0]) {
      TrimLeftIsSuffix(s[1..]);
    }
  }

  function TrimRight(s: string): (r: string)
    ensures r <= s
    ensures r == "" || !IsSpace(r[|r| - 1])
    ensures forall i :: |r| <= i < |s| ==> IsSpace(s[i])
  {
    if s != "" && IsSpace(s[|s| - 1]) then TrimRight(s[..|s| - 1]) else s
  }

  lemma TrimmedAlready(s: string)
    requires s != ""
    ensures !IsSpace(s[0]) ==> TrimLeft(s) == s && TrimRight(s) != ""
    ensures !IsSpace(s[|s| - 1]) ==> TrimRight(s) == s && TrimLeft(s) != "" && TrimLeft(s)[|TrimLeft(s)| - 1] == s[|s| - 1]
  {
    TrimLeftIsSuffix(s);
  }

  lemma TrimRightBlank(s: string)
    ensures TrimRight(s) == "" <==> forall i :: 0 <= i < |s| ==> IsSpace(s[i])
  {
    var r := TrimRight(s);
    assert r != "" ==> s[|r| - 1] == r[|r| - 1];
  }

  function TrimSpace(s: string): string {
    TrimRight(TrimLeft(s))
  }

  lemma NothingToTrim(s: string)
    requires s != "" && !IsSpace(s[0]) && !IsSpace(s[|s| - 1])
    ensures TrimSpace(s) == s
  {
    TrimmedAlready(s);
  }

  predicate Blank(s: string) {
    forall i :: 0 <= i < |s| ==> IsSpace(s[i])
  }

  lemma {:induction false} BlankBefore(p: string, s: string)
    requires Blank(p)
    ensures TrimLeft(p + s) == TrimLeft(s)
  {
    if p == "" {
      assert p + s == s;
    } else {
      var c, rest := p[0], p[1..];
      assert p + s == [c] + (rest + s);
      BlankBefore(rest, s);
      BlankFirst(c, rest + s);
    }
  }

  lemma BlankFirst(c: char, s: string)
    requires IsSpace(c)
    ensures TrimLeft([c] + s) == TrimLeft(s)
  {
    assert ([c] + s)[1..] == s;
  }

  lemma {:induction false} BlankAfter(s: string, q: string)
    requires Blank(q)
    ensures TrimRight(s + q) == TrimRight(s)
  {
    if q == "" {
      assert s + q == s;
    } else {
      var front, c := q[..|q| - 1], q[|q| - 1];
      assert s + q == (s + front) + [c];
      BlankAfter(s, front);
      BlankLast(s + front, c);
    }
  }

  lemma BlankLast(s: string, c: char)
    requires IsSpace(c)
    ensures TrimRight(s + [c]) == TrimRight(s)
  {
    assert (s + [c])[..|s|] == s;
  }

  /** Exactly the blanks at both ends are taken off. */
  lemma TrimSpaceIs(p: string, s: string, q: string)
    requires Blank(p) && Blank(q) && (s == "" || (!IsSpace(s[0]) && !IsSpace(s[|s| - 1])))
    ensures TrimSpace(p + s + q) == s
  {
    Assoc(p, s, q);
    BlankBefore(p, s + q);
    if s == "" {
      assert s + q == q;
      BlankBefore(q, "");
      assert q + "" == q;
    } else {
      assert (s + q)[0] == s[0];
      BlankAfter(s, q);
    }
  }

  predicate HasPrefix(s: string, prefix: string) {
    prefix <= s
  }

  lemma Assoc<T>(a: seq<T>, b: seq<T>, c: seq<T>)
    ensures (a + b) + c == a + (b + c)
  {
  }

  function Concat(parts: seq<string>): string {
    if parts == [] then "" else parts[0] + Concat(parts[1..])
  }

  /** A string without its white space: what wrapping and padding must keep. */
  function Solid(s: string): string {
    if s == "" then "" else (if IsSpace(s[0]) then "" else [s[0]]) + Solid(s[1..])
  }

  lemma {:induction false} SolidAppend(s: string, t: string)
    ensures Solid(s + t) == Solid(s) + Solid(t)
  {
    if s == "" {
      assert s + t == t;
    } else {
      SolidAppend(s[1..], t);
      assert (s + t)[1..] == s[1..] + t;
      var first := if IsSpace(s[0]) then "" else [s[0]];
      Assoc(first, Solid(s[1..]), Solid(t));
    }
  }

  lemma {:induction false} SolidTrimLeft(s: string)
    ensures Solid(TrimLeft(s)) == Solid(s)
  {
    if s != "" && IsSpace(s[0]) {
      SolidTrimLeft(s[1..]);
    }
  }

  lemma SolidOfBlank(front: string, last: char)
    requires IsSpace(last)
    ensures Solid(front + [last]) == Solid(front)
  {
    SolidAppend(front, [last]);
    assert [last][1..] == "" && Solid(front) + "" == Solid(front);
  }

  lemma {:induction false} SolidTrimRight(s: string)
    ensures Solid(TrimRight(s)) == Solid(s)
  {
    if s != "" && IsSpace(s[|s| - 1]) {
      var front, last := s[..|s| - 1], s[|s| - 1];
      assert s == front + [last];
      SolidTrimRight(front);
      SolidOfBlank(front, last);
    }
  }

  lemma {:induction false} ConcatAppend(p: seq<string>, q: seq<string>)
    ensures Concat(p + q) == Concat(p) + Concat(q)
  {
    if p == [] {
      assert p + q == q;
    } else {
      ConcatAppend(p[1..], q);
      assert (p + q)[1..] == p[1..] + q && (p + q)[0] == p[0];
      Assoc(p[0], Concat(p[1..]), Concat(q));
    }
  }

  // ---------- strings.Fields ----------

  function FirstWord(s: string): (w: string)
    ensures w <= s && forall c :: c in w ==> !IsSpace(c)
    ensures |w| < |s| ==> IsSpace(s[|w|])
  {
    if s == "" || IsSpace(s[0]) then ""
    else
      var w := FirstWord(s[1..]);
      assert |w| < |s[1..]| ==> s[1..][|w|] == s[|w| + 1];
      [s[0]] + w
  }

  function Fields(s: string): seq<string>
    decreases |s|
  {
    if s == "" then []
    else if IsSpace(s[0]) then Fields(s[1..])
    else
      var w := FirstWord(s);
      [w] + Fields(s[|w|..])
  }

  lemma {:induction false} FieldsAreWords(s: string, w: string)
    requires w in Fields(s)
    ensures w != "" && |w| <= |s| && forall c :: c in w ==> !IsSpace(c)
    decreases |s|
  {
    if IsSpace(s[0]) {
      FieldsAreWords(s[1..], w);
    } else if w != FirstWord(s) {
      FieldsAreWords(s[|FirstWord(s)|..], w);
    }
  }

  predicate StartsBlank(s: string) {
    s == "" || IsSpace(s[0])
  }

  lemma {:induction false} FirstWordIs(w: string, s: string)
    requires StartsBlank(s) && forall c :: c in w ==> !IsSpace(c)
    ensures FirstWord(w + s) == w
  {
    if w == "" {
      assert w + s == s;
    } else {
      FirstWordIs(w[1..], s);
      assert (w + s)[1..] == w[1..] + s;
    }
  }

  lemma FieldsOfWord(w: string, s: string)
    requires w != "" && StartsBlank(s) && forall c :: c in w ==> !IsSpace(c)
    ensures Fields(w + s) == [w] + Fields(s)
  {
    FirstWordIs(w, s);
    assert (w + s)[|w|..] == s;
  }

  lemma FieldsOfWordAppend(w: string, rest: string, t: string)
    requires w != "" && StartsBlank(rest) && StartsBlank(t) && forall c :: c in w ==> !IsSpace(c)
    requires Fields(rest + t) == Fields(rest) + Fields(t)
    ensures Fields((w + rest) + t) == Fields(w + rest) + Fields(t)
  {
    assert StartsBlank(rest + t) by {
      if rest == "" { assert rest + t == t; } else { assert (rest + t)[0] == rest[0]; }
    }
    FieldsOfWord(w, rest + t);
    FieldsOfWord(w, rest);
    Assoc(w, rest, t);
    Assoc([w], Fields(rest), Fields(t));
  }

  lemma {:induction false} FieldsAppend(s: string, t: string)
    requires StartsBlank(t)
    ensures Fields(s + t) == Fields(s) + Fields(t)
    decreases |s|
  {
    if s == "" {
      assert s + t == t;
    } else if IsSpace(s[0]) {
      FieldsAppend(s[1..], t);
      assert (s + t)[1..] == s[1..] + t;
    } else {
      var w := FirstWord(s);
      var rest := s[|w|..];
      assert s == w + rest;
      FieldsAppend(rest, t);
      FieldsOfWordAppend(w, rest, t);
    }
  }

  lemma {:induction false} FieldsTrimLeft(s: string)
    ensures Fields(TrimLeft(s)) == Fields(s)
  {
    if s != "" && IsSpace(s[0]) {
      FieldsTrimLeft(s[1..]);
    }
  }

  lemma {:induction false} FieldsTrimRight(s: string)
    ensures Fields(TrimRight(s)) == Fields(s)
  {
    if s != "" && IsSpace(s[|s| - 1]) {
      var front, last := s[..|s| - 1], s[|s| - 1..];
      FieldsTrimRight(front);
      FieldsAppend(front, last);
      assert s == front + last && last[1..] == "";
    }
  }

  // ---------- strings.Split and strings.Join on one character ----------

  function Split(s: string, sep: char): (parts: seq<string>)
    ensures |parts| >= 1
    ensures forall i :: 0 <= i < |parts| ==> sep !in parts[i]
  {
    if s == "" then [""]
    else
      var rest := Split(s[1..], sep);
      if s[0] == sep then [""] + rest else [[s[0]] + rest[0]] + rest[1..]
  }

  lemma {:induction false} SplitComesFrom(s: string, sep: char, p: string, c: char)
    requires p in Split(s, sep) && c in p
    ensures c in s
  {
    var rest := Split(s[1..], sep);
    if s[0] != sep && p == [s[0]] + rest[0] && c != s[0] {
      assert c in rest[0] && rest[0] in rest;
      SplitComesFrom(s[1..], sep, rest[0], c);
    } else if p in rest {
      SplitComesFrom(s[1..], sep, p, c);
    }
  }

  function Join(parts: seq<string>, sep: char): string {
    if parts == [] then ""
    else if |parts| == 1 then parts[0]
    else parts[0] + [sep] + Join(parts[1..], sep)
  }

  lemma {:induction false} SplitFirst(part: string, sep: char, rest: string)
    requires sep !in part
    ensures Split(part + [sep] + rest, sep) == [part] + Split(rest, sep)
  {
    var s := part + [sep] + rest;
    if part == "" {
      assert s == [sep] + rest && s[1..] == rest;
    } else {
      SplitFirst(part[1..], sep, rest);
      assert s[1..] == part[1..] + [sep] + rest && s[0] == part[0];
      assert part == [part[0]] + part[1..];
    }
  }

  lemma {:induction false} SplitNone(s: string, sep: char)
    requires sep !in s
    ensures Split(s, sep) == [s]
  {
    if s == "" {
    } else {
      SplitNone(s[1..], sep);
      assert s == [s[0]] + s[1..];
    }
  }

  lemma {:induction false} SplitOfJoin(parts: seq<string>, sep: char)
    requires parts != [] && forall p :: p in parts ==> sep !in p
    ensures Split(Join(parts, sep), sep) == parts
  {
    if |parts| == 1 {
      SplitNone(parts[0], sep);
    } else {
      SplitOfJoin(parts[1..], sep);
      SplitFirst(parts[0], sep, Join(parts[1..], sep));
    }
  }

  lemma {:induction false} JoinOfSplit(s: string, sep: char)
    ensures Join(Split(s, sep), sep) == s
  {
    if s == "" {
    } else {
      JoinOfSplit(s[1..], sep);
      var rest := Split(s[1..], sep);
      if s[0] == sep {
        assert ([""] + rest)[1..] == rest;
      } else {
        var parts := [[s[0]] + rest[0]] + rest[1..];
        assert parts[1..] == rest[1..];
      }
      assert s == [s[0]] + s[1..];
    }
  }

  /** The parts of a text with one more character in front. */
  function PartsWith(c: char, sep: char, parts: seq<string>): seq<string>
    requires parts != []
  {
    if c == sep then [""] + parts else [[c] + parts[0]] + parts[1..]
  }

  lemma SplitCons(c: char, s: string, sep: char)
    ensures Split([c] + s, sep) == PartsWith(c, sep, Split(s, sep))
  {
    assert ([c] + s)[0] == c && ([c] + s)[1..] == s;
  }

  lemma PartsWithMore(c: char, sep: char, p: seq<string>, q: seq<string>)
    requires p != []
    ensures PartsWith(c, sep, p + q) == PartsWith(c, sep, p) + q
  {
  }

  lemma {:induction false} SplitAround(a: string, b: string, sep: char)
    ensures Split(a + [sep] + b, sep) == Split(a, sep) + Split(b, sep)
  {
    if a == "" {
      assert a + [sep] + b == [sep] + b;
      SplitCons(sep, b, sep);
    } else {
      var c, rest := a[0], a[1..];
      assert a == [c] + rest && a + [sep] + b == [c] + (rest + [sep] + b);
      SplitAround(rest, b, sep);
      SplitCons(c, rest, sep);
      SplitCons(c, rest + [sep] + b, sep);
      PartsWithMore(c, sep, Split(rest, sep), Split(b, sep));
    }
  }
}
