/** JSON texts determine their values: the encoder is injective, in either layout. */
module JsonText {
  import opened Text
  import opened Orders
  import opened Json

  lemma Cancel(p: string, a: string, b: string)
    requires p + a == p + b
    ensures a == b
  {
    assert a == (p + a)[|p|..] && b == (p + b)[|p|..];
  }

  /** Text that cannot continue a number. */
  ghost predicate Ends(s: string) {
    s == "" || !NumberChar(s[0])
  }

  lemma NumberFirst(m: string, s: string)
    requires (forall c :: c in m ==> NumberChar(c)) && Ends(s)
    ensures m != "" <==> m + s != "" && NumberChar((m + s)[0])
  {
    if m != "" {
      assert (m + s)[0] == m[0] && m[0] in m;
    } else {
      assert m + s == s;
    }
  }

  lemma {:induction false} NumberUnique(m: string, n: string, s: string, t: string)
    requires (forall c :: c in m ==> NumberChar(c)) && (forall c :: c in n ==> NumberChar(c))
    requires Ends(s) && Ends(t) && m + s == n + t
    ensures m == n && s == t
  {
    NumberFirst(m, s);
    NumberFirst(n, t);
    if m == "" {
      assert m + s == s && n + t == t;
    } else {
      assert (m + s)[0] == m[0] && (n + t)[0] == n[0];
      assert (m + s)[1..] == m[1..] + s && (n + t)[1..] == n[1..] + t;
      NumberUnique(m[1..], n[1..], s, t);
      assert m == [m[0]] + m[1..] && n == [n[0]] + n[1..];
    }
  }

  /** An escape is told from its first characters, and its length from the escape. */
  lemma EscapePrefix(c: char, d: char)
    requires forall k :: 0 <= k < |Escape(c)| && k < |Escape(d)| ==> Escape(c)[k] == Escape(d)[k]
    ensures c == d
  {
    var e, f := Escape(c), Escape(d);
    assert e[0] == f[0];
    if e[0] == '\\' {
      assert e[1] == f[1];
      if |e| == 6 && |f| == 6 {
        assert e[2] == f[2] && e[4] == f[4] && e[5] == f[5];
        if e[2] == '0' {
          HexCodeUnique(c as int, d as int);
        }
      }
    }
  }

  lemma HexUnique(m: nat, n: nat)
    requires m < 16 && n < 16 && Hex(m) == Hex(n)
    ensures m == n
  {
  }

  lemma HexCodeUnique(m: nat, n: nat)
    requires m < 256 && n < 256 && Hex(m / 16) == Hex(n / 16) && Hex(m % 16) == Hex(n % 16)
    ensures m == n
  {
    HexUnique(m / 16, n / 16);
    HexUnique(m % 16, n % 16);
  }

  lemma EscapeUnique(c: char, d: char, s: string, t: string)
    requires Escape(c) + s == Escape(d) + t
    ensures c == d && s == t
  {
    SharedPrefix(Escape(c), Escape(d), s, t);
    EscapePrefix(c, d);
    Cancel(Escape(c), s, t);
  }

  lemma SharedPrefix(e: string, f: string, s: string, t: string)
    requires e + s == f + t
    ensures forall k :: 0 <= k < |e| && k < |f| ==> e[k] == f[k]
  {
    assert forall k :: 0 <= k < |e| ==> (e + s)[k] == e[k];
    assert forall k :: 0 <= k < |f| ==> (f + t)[k] == f[k];
  }

  lemma {:induction false} EscapeAllUnique(a: string, b: string, s: string, t: string)
    requires EscapeAll(a) + ("\"" + s) == EscapeAll(b) + ("\"" + t)
    ensures a == b && s == t
  {
    EscapeAllFirst(a, s);
    EscapeAllFirst(b, t);
    if a == "" {
      assert EscapeAll(a) + ("\"" + s) == "\"" + s;
      assert EscapeAll(b) + ("\"" + t) == "\"" + t;
      Cancel("\"", s, t);
    } else {
      Assoc(Escape(a[0]), EscapeAll(a[1..]), "\"" + s);
      Assoc(Escape(b[0]), EscapeAll(b[1..]), "\"" + t);
      EscapeUnique(a[0], b[0], EscapeAll(a[1..]) + ("\"" + s), EscapeAll(b[1..]) + ("\"" + t));
      EscapeAllUnique(a[1..], b[1..], s, t);
      assert a == [a[0]] + a[1..] && b == [b[0]] + b[1..];
    }
  }

  lemma EscapeAllFirst(a: string, s: string)
    ensures (EscapeAll(a) + ("\"" + s))[0] == '"' <==> a == ""
  {
    if a != "" {
      assert Escape(a[0])[0] != '"';
    }
  }

  lemma QuoteUnique(a: string, b: string, s: string, t: string)
    requires Quote(a) + s == Quote(b) + t
    ensures a == b && s == t
  {
    ListText("\"", EscapeAll(a), "\"", s, EscapeAll(b), t);
    EscapeAllUnique(a, b, s, t);
  }

  // ---------- values ----------

  function Tag(v: Json): nat {
    match v
    case Null => 0
    case Bool(b) => if b then 1 else 2
    case Num(_) => 3
    case Str(_) => 4
    case Arr(_) => 5
    case Obj(_) => 6
  }

  function TagOf(c: char): nat {
    if c == 'n' then 0 else if c == 't' then 1 else if c == 'f' then 2 else if NumberChar(c) then 3
    else if c == '"' then 4 else if c == '[' then 5 else if c == '{' then 6 else 7
  }

  /** The first character of a text tells the kind of value. */
  lemma FirstTells(v: Json, l: Layout)
    ensures Encode(v, l) != "" && TagOf(Encode(v, l)[0]) == Tag(v)
  {
    match v {
      case Null =>
      case Bool(b) =>
      case Num(n) => assert n[0] in n;
      case Str(s) => assert Quote(s)[0] == '"';
      case Arr(_) => assert Encode(v, l)[0] == '[';
      case Obj(_) => assert Encode(v, l)[0] == '{';
    }
  }

  lemma {:induction false} EncodeUnique(x: Json, y: Json, l: Layout, s: string, t: string)
    requires Encode(x, l) + s == Encode(y, l) + t && Ends(s) && Ends(t)
    ensures x == y && s == t
    decreases x, 2, 0
  {
    FirstTells(x, l);
    FirstTells(y, l);
    assert (Encode(x, l) + s)[0] == Encode(x, l)[0] && (Encode(y, l) + t)[0] == Encode(y, l)[0];
    match x {
      case Null => Cancel("null", s, t);
      case Bool(b) => Cancel(if b then "true" else "false", s, t);
      case Num(n) => NumberUnique(n, y.n, s, t);
      case Str(a) => QuoteUnique(a, y.s, s, t);
      case Arr(_) =>
        ListText("[", EncodeItems(x, l, 0), "]", s, EncodeItems(y, l, 0), t);
        ItemsUnique(x, y, l, 0, s, t);
      case Obj(_) =>
        var kx, ky := SortedSet(x.members.Keys), SortedSet(y.members.Keys);
        ListText("{", EncodeMembers(x, kx, l, 0), "}", s, EncodeMembers(y, ky, l, 0), t);
        MembersUnique(x, y, kx, ky, l, 0, s, t);
        MembersSame(x, y, kx, ky);
    }
  }

  lemma ListText(open: string, a: string, close: string, s: string, b: string, t: string)
    requires open + a + close + s == open + b + close + t
    ensures a + (close + s) == b + (close + t)
  {
    assert open + a + close + s == open + (a + (close + s));
    assert open + b + close + t == open + (b + (close + t));
    Cancel(open, a + (close + s), b + (close + t));
  }

  lemma MembersSame(x: Json, y: Json, kx: seq<string>, ky: seq<string>)
    requires Lists(x, kx) && Lists(y, ky) && |kx| == |ky| && Agree(x, y, kx, ky, |kx|)
    requires (forall k :: k in x.members ==> k in kx) && (forall k :: k in y.members ==> k in ky)
    ensures x == y
  {
    assert kx == ky;
    forall k | k in x.members ensures k in y.members && x.members[k] == y.members[k] {
      var j := IndexOf(kx, k);
    }
    assert x.members == y.members;
  }

  lemma IndexOf(keys: seq<string>, k: string) returns (j: nat)
    requires k in keys
    ensures j < |keys| && keys[j] == k
  {
    j :| j < |keys| && keys[j] == k;
  }

  lemma ItemsFirst(v: Json, l: Layout, i: nat, s: string)
    requires v.Arr? && i <= |v.items|
    ensures var text := EncodeItems(v, l, i) + ("]" + s);
            text != "" &&
            if i == |v.items| then text[0] == (if i == 0 || l == Compact then ']' else '\n')
            else if i > 0 then text[0] == ','
            else text[0] == (if l == Compact then Encode(v.items[i], Compact)[0] else '\n') && text[0] != ']'
  {
    if i < |v.items| {
      FirstTells(v.items[i], Deeper(l));
    }
  }

  lemma ItemsEnd(v: Json, l: Layout, i: nat, s: string)
    requires v.Arr? && 0 < i <= |v.items|
    ensures Ends(EncodeItems(v, l, i) + ("]" + s))
  {
    ItemsFirst(v, l, i, s);
  }

  lemma ItemsStop(x: Json, y: Json, l: Layout, i: nat, s: string, t: string)
    requires x.Arr? && y.Arr? && i <= |x.items| && i <= |y.items| && (i == |x.items| || i == |y.items|)
    requires EncodeItems(x, l, i) + ("]" + s) == EncodeItems(y, l, i) + ("]" + t)
    ensures |x.items| == |y.items| && s == t
  {
    ItemsFirst(x, l, i, s);
    ItemsFirst(y, l, i, t);
    Cancel(Closing(l, i), "]" + s, "]" + t);
    Cancel("]", s, t);
  }

  lemma {:induction false} ItemsUnique(x: Json, y: Json, l: Layout, i: nat, s: string, t: string)
    requires x.Arr? && y.Arr? && i <= |x.items| && i <= |y.items| && x.items[..i] == y.items[..i]
    requires EncodeItems(x, l, i) + ("]" + s) == EncodeItems(y, l, i) + ("]" + t)
    ensures x == y && s == t
    decreases x, 1, |x.items| - i
  {
    if i == |x.items| || i == |y.items| {
      ItemsStop(x, y, l, i, s, t);
      assert x.items[..i] == x.items && y.items[..i] == y.items;
    } else {
      var restX, restY := EncodeItems(x, l, i + 1) + ("]" + s), EncodeItems(y, l, i + 1) + ("]" + t);
      ItemsStep(x, l, i, s);
      ItemsStep(y, l, i, t);
      Cancel(Opening(l, i), Encode(x.items[i], Deeper(l)) + restX, Encode(y.items[i], Deeper(l)) + restY);
      ItemsEnd(x, l, i + 1, s);
      ItemsEnd(y, l, i + 1, t);
      EncodeUnique(x.items[i], y.items[i], Deeper(l), restX, restY);
      assert x.items[..i + 1] == x.items[..i] + [x.items[i]] && y.items[..i + 1] == y.items[..i] + [y.items[i]];
      ItemsUnique(x, y, l, i + 1, s, t);
    }
  }

  lemma ItemsStep(v: Json, l: Layout, i: nat, s: string)
    requires v.Arr? && i < |v.items|
    ensures EncodeItems(v, l, i) + ("]" + s) == Opening(l, i) + (Encode(v.items[i], Deeper(l)) + (EncodeItems(v, l, i + 1) + ("]" + s)))
  {
    var e, rest := Encode(v.items[i], Deeper(l)), EncodeItems(v, l, i + 1);
    Assoc(Opening(l, i), e + rest, "]" + s);
    Assoc(e, rest, "]" + s);
  }

  ghost predicate Lists(v: Json, keys: seq<string>) {
    v.Obj? && forall k :: k in keys ==> k in v.members
  }

  /** What is written from member `i` on, followed by the closing brace and `s`. */
  function MembersText(v: Json, keys: seq<string>, l: Layout, i: nat, s: string): string
    requires Lists(v, keys) && i <= |keys|
  {
    EncodeMembers(v, keys, l, i) + ("}" + s)
  }

  lemma MembersFirst(v: Json, keys: seq<string>, l: Layout, i: nat, s: string)
    requires Lists(v, keys) && i <= |keys|
    ensures var text := MembersText(v, keys, l, i, s);
            text != "" &&
            if i == |keys| then text[0] == (if i == 0 || l == Compact then '}' else '\n')
            else if i > 0 then text[0] == ','
            else text[0] == if l == Compact then '"' else '\n'
  {
  }

  lemma MembersEnd(v: Json, keys: seq<string>, l: Layout, i: nat, s: string)
    requires Lists(v, keys) && 0 < i <= |keys|
    ensures Ends(MembersText(v, keys, l, i, s))
  {
    MembersFirst(v, keys, l, i, s);
  }

  lemma MembersStep(v: Json, keys: seq<string>, l: Layout, i: nat, s: string)
    requires Lists(v, keys) && i < |keys|
    ensures MembersText(v, keys, l, i, s)
            == Opening(l, i) + (Quote(keys[i]) + (Colon(l) + (Encode(v.members[keys[i]], Deeper(l)) + MembersText(v, keys, l, i + 1, s))))
  {
    var q, c, e, rest := Quote(keys[i]), Colon(l), Encode(v.members[keys[i]], Deeper(l)), EncodeMembers(v, keys, l, i + 1);
    Assoc(Opening(l, i), q + (c + (e + rest)), "}" + s);
    Assoc(q, c + (e + rest), "}" + s);
    Assoc(c, e + rest, "}" + s);
    Assoc(e, rest, "}" + s);
  }

  lemma MembersStop(x: Json, y: Json, kx: seq<string>, ky: seq<string>, l: Layout, i: nat, s: string, t: string)
    requires Lists(x, kx) && Lists(y, ky) && i <= |kx| && i <= |ky| && (i == |kx| || i == |ky|)
    requires MembersText(x, kx, l, i, s) == MembersText(y, ky, l, i, t)
    ensures |kx| == |ky| && s == t
  {
    MembersFirst(x, kx, l, i, s);
    MembersFirst(y, ky, l, i, t);
    Cancel(Closing(l, i), "}" + s, "}" + t);
    Cancel("}", s, t);
  }

  lemma MemberNames(x: Json, y: Json, kx: seq<string>, ky: seq<string>, l: Layout, i: nat, s: string, t: string)
    requires Lists(x, kx) && Lists(y, ky) && i < |kx| && i < |ky|
    requires MembersText(x, kx, l, i, s) == MembersText(y, ky, l, i, t)
    ensures kx[i] == ky[i]
    ensures Encode(x.members[kx[i]], Deeper(l)) + MembersText(x, kx, l, i + 1, s)
            == Encode(y.members[ky[i]], Deeper(l)) + MembersText(y, ky, l, i + 1, t)
    ensures Ends(MembersText(x, kx, l, i + 1, s)) && Ends(MembersText(y, ky, l, i + 1, t))
  {
    MembersEnd(x, kx, l, i + 1, s);
    MembersEnd(y, ky, l, i + 1, t);
    var restX, restY := MembersText(x, kx, l, i + 1, s), MembersText(y, ky, l, i + 1, t);
    var ex, ey := Encode(x.members[kx[i]], Deeper(l)), Encode(y.members[ky[i]], Deeper(l));
    MembersStep(x, kx, l, i, s);
    MembersStep(y, ky, l, i, t);
    Cancel(Opening(l, i), Quote(kx[i]) + (Colon(l) + (ex + restX)), Quote(ky[i]) + (Colon(l) + (ey + restY)));
    QuoteUnique(kx[i], ky[i], Colon(l) + (ex + restX), Colon(l) + (ey + restY));
    Cancel(Colon(l), ex + restX, ey + restY);
  }

  ghost predicate Agree(x: Json, y: Json, kx: seq<string>, ky: seq<string>, n: nat)
    requires Lists(x, kx) && Lists(y, ky)
  {
    n <= |kx| && n <= |ky| && forall j :: 0 <= j < n ==> kx[j] == ky[j] && x.members[kx[j]] == y.members[ky[j]]
  }

  lemma AgreeNext(x: Json, y: Json, kx: seq<string>, ky: seq<string>, n: nat)
    requires Lists(x, kx) && Lists(y, ky) && Agree(x, y, kx, ky, n)
    requires n < |kx| && n < |ky| && kx[n] == ky[n] && x.members[kx[n]] == y.members[ky[n]]
    ensures Agree(x, y, kx, ky, n + 1)
  {
  }

  /** Member `i` of both objects is the same, and so is all the text after it. */
  lemma {:induction false} MemberUnique(x: Json, y: Json, kx: seq<string>, ky: seq<string>, l: Layout, i: nat, s: string, t: string)
    requires Lists(x, kx) && Lists(y, ky) && i < |kx| && i < |ky|
    requires MembersText(x, kx, l, i, s) == MembersText(y, ky, l, i, t)
    ensures kx[i] == ky[i] && x.members[kx[i]] == y.members[ky[i]]
    ensures MembersText(x, kx, l, i + 1, s) == MembersText(y, ky, l, i + 1, t)
    decreases x, 0, 0
  {
    MemberNames(x, y, kx, ky, l, i, s, t);
    EncodeUnique(x.members[kx[i]], y.members[ky[i]], Deeper(l), MembersText(x, kx, l, i + 1, s), MembersText(y, ky, l, i + 1, t));
  }

  lemma {:induction false} MembersUnique(x: Json, y: Json, kx: seq<string>, ky: seq<string>, l: Layout, i: nat, s: string, t: string)
    requires Lists(x, kx) && Lists(y, ky) && Agree(x, y, kx, ky, i)
    requires MembersText(x, kx, l, i, s) == MembersText(y, ky, l, i, t)
    ensures |kx| == |ky| && s == t && Agree(x, y, kx, ky, |kx|)
    decreases x, 1, |kx| - i
  {
    if i == |kx| || i == |ky| {
      MembersStop(x, y, kx, ky, l, i, s, t);
    } else {
      MemberUnique(x, y, kx, ky, l, i, s, t);
      AgreeNext(x, y, kx, ky, i);
      MembersUnique(x, y, kx, ky, l, i + 1, s, t);
    }
  }

  /** No two values share a text. */
  lemma EncodeInjective(x: Json, y: Json, l: Layout)
    requires Encode(x, l) == Encode(y, l)
    ensures x == y
  {
    assert Encode(x, l) + "" == Encode(x, l) && Encode(y, l) + "" == Encode(y, l);
    EncodeUnique(x, y, l, "", "");
  }
}
