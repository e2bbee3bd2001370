/** What JSON texts look like, without the encoder's recursion: elements joined by separators, and readable strings. */
module JsonShape {
  import opened Options
  import opened Text
  import opened Orders
  import opened Json

  // ---------- arrays and objects ----------

  function Separated(parts: seq<string>, sep: string): string {
    if parts == [] then "" else if |parts| == 1 then parts[0] else parts[0] + (sep + Separated(parts[1..], sep))
  }

  /** The start of a line at this nesting: two blanks for each level, or nothing in compact texts. */
  ghost predicate IsBreak(s: string, l: Layout) {
    if l == Compact then s == ""
    else |s| == 1 + 2 * l.depth && s[0] == '\n' && forall i :: 1 <= i < |s| ==> s[i] == ' '
  }

  lemma {:induction false} SpacesAre(n: nat)
    ensures |Spaces(n)| == 2 * n && forall i :: 0 <= i < |Spaces(n)| ==> Spaces(n)[i] == ' '
  {
    if n == 0 {
    } else {
      SpacesAre(n - 1);
    }
  }

  lemma BreakIs(l: Layout)
    ensures IsBreak(Break(l), l)
  {
    if l != Compact {
      SpacesAre(l.depth);
    }
  }

  function ItemTexts(items: seq<Json>, l: Layout): (r: seq<string>)
    ensures |r| == |items| && forall i :: 0 <= i < |r| ==> r[i] == Encode(items[i], l)
  {
    seq(|items|, i requires 0 <= i < |items| => Encode(items[i], l))
  }

  ghost predicate Keyed(members: map<string, Json>, keys: seq<string>) {
    forall k :: k in keys ==> k in members
  }

  /** One member: the quoted key, a colon, with a blank behind it when indented, and the value. */
  function MemberText(key: string, value: Json, l: Layout): string {
    Quote(key) + ((if l == Compact then ":" else ": ") + Encode(value, l))
  }

  function MemberTexts(members: map<string, Json>, keys: seq<string>, l: Layout): (r: seq<string>)
    requires Keyed(members, keys)
    ensures |r| == |keys|
    ensures forall i :: 0 <= i < |r| ==> r[i] == MemberText(keys[i], members[keys[i]], l)
  {
    seq(|keys|, i requires 0 <= i < |keys| => MemberText(keys[i], members[keys[i]], l))
  }

  lemma SeparatedFrom(parts: seq<string>, sep: string, i: nat)
    requires i < |parts| - 1
    ensures Separated(parts[i..], sep) == parts[i] + (sep + Separated(parts[i + 1..], sep))
  {
    assert parts[i..][1..] == parts[i + 1..];
  }

  lemma SeparatedLast(parts: seq<string>, sep: string, i: nat)
    requires i == |parts| - 1
    ensures Separated(parts[i..], sep) == parts[i]
  {
  }

  lemma Regroup(lead: string, part: string, comma: string, b: string, others: string, end: string)
    ensures (lead + b) + (part + (comma + (b + (others + end)))) == lead + (b + ((part + ((comma + b) + others)) + end))
  {
    Assoc(lead, b, part + (comma + (b + (others + end))));
    Assoc(comma, b, others + end);
    Assoc(comma + b, others, end);
    Assoc(part, (comma + b) + others, end);
  }

  /** What an element adds in front of the rest of its list. */
  lemma OneItem(v: Json, l: Layout, i: nat, lead: string, b: string, part: string, rest: string)
    requires v.Arr? && i < |v.items| && lead == (if i == 0 then "" else ",") && b == Break(Deeper(l))
    requires part == Encode(v.items[i], Deeper(l)) && rest == EncodeItems(v, l, i + 1)
    ensures EncodeItems(v, l, i) == (lead + b) + (part + rest)
  {
  }

  ghost predicate ListReads(text: string, texts: seq<string>, i: nat, b: string, end: string) {
    i < |texts| && text == (if i == 0 then "" else ",") + (b + (Separated(texts[i..], "," + b) + end))
  }

  lemma ListLast(text: string, texts: seq<string>, i: nat, lead: string, b: string, end: string)
    requires i == |texts| - 1 && lead == (if i == 0 then "" else ",") && text == (lead + b) + (texts[i] + end)
    ensures ListReads(text, texts, i, b, end)
  {
    SeparatedLast(texts, "," + b, i);
    Assoc(lead, b, texts[i] + end);
  }

  lemma ListMore(text: string, texts: seq<string>, i: nat, lead: string, b: string, end: string, rest: string)
    requires i < |texts| - 1 && lead == (if i == 0 then "" else ",") && text == (lead + b) + (texts[i] + rest)
    requires ListReads(rest, texts, i + 1, b, end)
    ensures ListReads(text, texts, i, b, end)
  {
    SeparatedFrom(texts, "," + b, i);
    Regroup(lead, texts[i], ",", b, Separated(texts[i + 1..], "," + b), end);
  }

  ghost predicate ItemsRead(v: Json, l: Layout, texts: seq<string>, i: nat)
    requires v.Arr? && i <= |v.items|
  {
    ListReads(EncodeItems(v, l, i), texts, i, Break(Deeper(l)), Break(l))
  }

  lemma LastItem(v: Json, l: Layout, texts: seq<string>, i: nat)
    requires v.Arr? && i == |v.items| - 1 && texts == ItemTexts(v.items, Deeper(l))
    ensures ItemsRead(v, l, texts, i)
  {
    var lead, text, end := if i == 0 then "" else ",", EncodeItems(v, l, i), Break(l);
    ItemsEnd(v, l);
    OneItem(v, l, i, lead, Break(Deeper(l)), texts[i], end);
    ListLast(text, texts, i, lead, Break(Deeper(l)), end);
  }

  lemma ItemsEnd(v: Json, l: Layout)
    requires v.Arr? && v.items != []
    ensures EncodeItems(v, l, |v.items|) == Break(l)
  {
  }

  lemma MoreItems(v: Json, l: Layout, texts: seq<string>, i: nat)
    requires v.Arr? && i < |v.items| - 1 && texts == ItemTexts(v.items, Deeper(l))
    requires ItemsRead(v, l, texts, i + 1)
    ensures ItemsRead(v, l, texts, i)
  {
    var lead, text, rest := if i == 0 then "" else ",", EncodeItems(v, l, i), EncodeItems(v, l, i + 1);
    OneItem(v, l, i, lead, Break(Deeper(l)), texts[i], rest);
    ListMore(text, texts, i, lead, Break(Deeper(l)), Break(l), rest);
  }

  lemma {:induction false} ItemsText(v: Json, l: Layout, texts: seq<string>, i: nat)
    requires v.Arr? && i < |v.items| && texts == ItemTexts(v.items, Deeper(l))
    ensures ItemsRead(v, l, texts, i)
    decreases |v.items| - i
  {
    if i == |v.items| - 1 {
      LastItem(v, l, texts, i);
    } else {
      ItemsText(v, l, texts, i + 1);
      MoreItems(v, l, texts, i);
    }
  }

  /** A non-empty array: every element on a line of its own when indented, with commas between them. */
  lemma {:induction false} ArrayText(items: seq<Json>, l: Layout)
    requires items != []
    ensures var b := Break(Deeper(l));
            Encode(Arr(items), l) == "[" + (b + (Separated(ItemTexts(items, Deeper(l)), "," + b) + Break(l))) + "]"
  {
    var texts := ItemTexts(items, Deeper(l));
    ItemsText(Arr(items), l, texts, 0);
    FirstOfList(EncodeItems(Arr(items), l, 0), texts, Break(Deeper(l)), Break(l));
  }

  lemma OneMember(v: Json, keys: seq<string>, l: Layout, i: nat, lead: string, b: string, part: string, rest: string)
    requires v.Obj? && i < |keys| && Keyed(v.members, keys)
    requires lead == (if i == 0 then "" else ",") && b == Break(Deeper(l)) && rest == EncodeMembers(v, keys, l, i + 1)
    requires part == MemberText(keys[i], v.members[keys[i]], Deeper(l))
    ensures EncodeMembers(v, keys, l, i) == (lead + b) + (part + rest)
  {
    MemberJoined(Quote(keys[i]), Colon(l), Encode(v.members[keys[i]], Deeper(l)), rest);
  }

  lemma MemberTextAt(v: Json, keys: seq<string>, l: Layout, i: nat, texts: seq<string>)
    requires v.Obj? && i < |keys| && Keyed(v.members, keys) && texts == MemberTexts(v.members, keys, l)
    ensures |texts| == |keys| && texts[i] == MemberText(keys[i], v.members[keys[i]], l)
  {
  }

  ghost predicate MembersRead(v: Json, keys: seq<string>, l: Layout, texts: seq<string>, i: nat)
    requires v.Obj? && i <= |keys| && Keyed(v.members, keys)
  {
    ListReads(EncodeMembers(v, keys, l, i), texts, i, Break(Deeper(l)), Break(l))
  }

  lemma LastMember(v: Json, keys: seq<string>, l: Layout, texts: seq<string>, i: nat)
    requires v.Obj? && i == |keys| - 1 && Keyed(v.members, keys) && texts == MemberTexts(v.members, keys, Deeper(l))
    ensures MembersRead(v, keys, l, texts, i)
  {
    var lead, text, end := if i == 0 then "" else ",", EncodeMembers(v, keys, l, i), Break(l);
    MemberTextAt(v, keys, Deeper(l), i, texts);
    MembersEnd(v, keys, l);
    OneMember(v, keys, l, i, lead, Break(Deeper(l)), texts[i], end);
    ListLast(text, texts, i, lead, Break(Deeper(l)), end);
  }

  lemma MoreMembers(v: Json, keys: seq<string>, l: Layout, texts: seq<string>, i: nat)
    requires v.Obj? && i < |keys| - 1 && Keyed(v.members, keys) && texts == MemberTexts(v.members, keys, Deeper(l))
    requires MembersRead(v, keys, l, texts, i + 1)
    ensures MembersRead(v, keys, l, texts, i)
  {
    var lead, text, rest := if i == 0 then "" else ",", EncodeMembers(v, keys, l, i), EncodeMembers(v, keys, l, i + 1);
    MemberTextAt(v, keys, Deeper(l), i, texts);
    OneMember(v, keys, l, i, lead, Break(Deeper(l)), texts[i], rest);
    ListMore(text, texts, i, lead, Break(Deeper(l)), Break(l), rest);
  }

  lemma {:induction false} MembersText(v: Json, keys: seq<string>, l: Layout, texts: seq<string>, i: nat)
    requires v.Obj? && i < |keys| && Keyed(v.members, keys) && texts == MemberTexts(v.members, keys, Deeper(l))
    ensures MembersRead(v, keys, l, texts, i)
    decreases |keys| - i
  {
    if i == |keys| - 1 {
      LastMember(v, keys, l, texts, i);
    } else {
      MembersText(v, keys, l, texts, i + 1);
      MoreMembers(v, keys, l, texts, i);
    }
  }

  lemma MembersEnd(v: Json, keys: seq<string>, l: Layout)
    requires v.Obj? && keys != [] && Keyed(v.members, keys)
    ensures EncodeMembers(v, keys, l, |keys|) == Break(l)
  {
  }

  lemma MemberJoined(q: string, c: string, e: string, rest: string)
    ensures q + (c + (e + rest)) == (q + (c + e)) + rest
  {
    Assoc(c, e, rest);
    Assoc(q, c + e, rest);
  }

  lemma KeysOf(members: map<string, Json>, keys: seq<string>)
    requires keys == SortedSet(members.Keys)
    ensures Keyed(members, keys) && (members != map[] ==> keys != [])
  {
    if members != map[] {
      var k :| k in members;
      assert k in keys;
    }
  }

  /** A non-empty object: its members in the order of their keys. */
  lemma {:induction false} ObjectText(members: map<string, Json>, keys: seq<string>, l: Layout)
    requires members != map[] && keys == SortedSet(members.Keys)
    ensures Keyed(members, keys)
    ensures var b := Break(Deeper(l));
            Encode(Obj(members), l) == "{" + (b + (Separated(MemberTexts(members, keys, Deeper(l)), "," + b) + Break(l))) + "}"
  {
    KeysOf(members, keys);
    var texts := MemberTexts(members, keys, Deeper(l));
    MembersText(Obj(members), keys, l, texts, 0);
    FirstOfList(EncodeMembers(Obj(members), keys, l, 0), texts, Break(Deeper(l)), Break(l));
    EncodeObject(members, keys, l);
  }

  lemma EncodeObject(members: map<string, Json>, keys: seq<string>, l: Layout)
    requires keys == SortedSet(members.Keys)
    ensures Keyed(members, keys) && Encode(Obj(members), l) == "{" + EncodeMembers(Obj(members), keys, l, 0) + "}"
  {
  }

  lemma FirstOfList(text: string, texts: seq<string>, b: string, end: string)
    requires ListReads(text, texts, 0, b, end)
    ensures text == b + (Separated(texts, "," + b) + end)
  {
    assert texts[0..] == texts;
    var inside := b + (Separated(texts, "," + b) + end);
    assert "" + inside == inside;
  }

  /** The texts without elements. */
  lemma PlainTexts(l: Layout, n: Number)
    ensures Encode(Null, l) == "null" && Encode(Bool(true), l) == "true" && Encode(Bool(false), l) == "false"
    ensures Encode(Num(n), l) == n
    ensures Encode(Arr([]), l) == "[]" && Encode(Obj(map[]), l) == "{}"
  {
    var none: map<string, Json> := map[];
    assert none.Keys == {} && SortedSet(none.Keys) == [];
    assert "[" + "" + "]" == "[]" && "{" + "" + "}" == "{}";
  }

  // ---------- reading strings back ----------

  function HexValue(c: char): Option<nat> {
    if '0' <= c <= '9' then Some(c as int - '0' as int)
    else if 'a' <= c <= 'f' then Some(c as int - 'a' as int + 10)
    else if 'A' <= c <= 'F' then Some(c as int - 'A' as int + 10)
    else None
  }

  /** The character named by the four hexadecimal digits at the front. */
  function HexChar(s: string): Option<char>
    requires |s| >= 4
  {
    var a, b, c, d := HexValue(s[0]), HexValue(s[1]), HexValue(s[2]), HexValue(s[3]);
    if a == None || b == None || c == None || d == None then None
    else
      var code: int := 4096 * a.value + 256 * b.value + 16 * c.value + d.value;
      if 0xD800 <= code <= 0xDFFF || code > 0xFFFF then None else Some(code as char)
  }

  function ShortEscape(c: char): Option<char> {
    if c == '"' || c == '\\' || c == '/' then Some(c)
    else if c == 'b' then Some('\U{8}') else if c == 'f' then Some('\U{C}')
    else if c == 'n' then Some('\n') else if c == 'r' then Some('\r') else if c == 't' then Some('\t')
    else None
  }

  /** The first character of the inside of a string literal, and what follows it: section 7 of RFC 8259. */
  function ReadChar(s: string): Option<(char, string)>
    requires s != ""
  {
    if s[0] == '"' || s[0] < ' ' then None
    else if s[0] != '\\' then Some((s[0], s[1..]))
    else if |s| >= 6 && s[1] == 'u' then
      match HexChar(s[2..])
      case None => None
      case Some(c) => Some((c, s[6..]))
    else if |s| >= 2 then
      match ShortEscape(s[1])
      case None => None
      case Some(c) => Some((c, s[2..]))
    else None
  }

  function ReadAll(s: string): Option<string>
    decreases |s|
  {
    if s == "" then Some("")
    else
      match ReadChar(s)
      case None => None
      case Some((c, rest)) =>
        if |rest| >= |s| then None
        else
          match ReadAll(rest)
          case None => None
          case Some(t) => Some([c] + t)
  }

  lemma HexReads(n: nat)
    requires n < 16
    ensures HexValue(Hex(n)) == Some(n)
  {
  }

  lemma ReadHexEscape(e: string, c: char, rest: string)
    requires |e| == 6 && e[0] == '\\' && e[1] == 'u' && HexChar(e[2..]) == Some(c)
    ensures ReadChar(e + rest) == Some((c, rest))
  {
    var s := e + rest;
    assert s[2..][..4] == e[2..] && s[6..] == rest;
    assert s[2..][0] == e[2..][0] && s[2..][1] == e[2..][1] && s[2..][2] == e[2..][2] && s[2..][3] == e[2..][3];
  }

  lemma ReadShortEscape(e: string, c: char, rest: string)
    requires |e| == 2 && e[0] == '\\' && e[1] != 'u' && ShortEscape(e[1]) == Some(c)
    ensures ReadChar(e + rest) == Some((c, rest))
  {
    assert (e + rest)[2..] == rest;
  }

  lemma ReadPlain(c: char, rest: string)
    requires c != '"' && c != '\\' && c >= ' '
    ensures ReadChar([c] + rest) == Some((c, rest))
  {
    assert ([c] + rest)[1..] == rest;
  }

  lemma HexEscapeOf(c: char, e: string)
    requires e == Escape(c) && |e| == 6
    ensures e[0] == '\\' && e[1] == 'u' && HexChar(e[2..]) == Some(c)
  {
    if c as int < 256 {
      HexReads(c as int / 16);
      HexReads(c as int % 16);
    }
  }

  lemma ReadEscape(c: char, rest: string)
    ensures ReadChar(Escape(c) + rest) == Some((c, rest))
  {
    var e := Escape(c);
    if |e| == 6 {
      HexEscapeOf(c, e);
      ReadHexEscape(e, c, rest);
    } else if |e| == 2 {
      ReadShortEscape(e, c, rest);
    } else {
      ReadPlain(c, rest);
    }
  }

  /** What is written for a string is read back as that string. */
  lemma {:induction false} EscapeReads(s: string)
    ensures ReadAll(EscapeAll(s)) == Some(s)
  {
    if s == "" {
    } else {
      EscapeReads(s[1..]);
      ReadEscape(s[0], EscapeAll(s[1..]));
      assert s == [s[0]] + s[1..];
    }
  }

  /** Which characters are written as they are, and which with two characters; all others take six, with small digits. */
  lemma EscapeForms(c: char)
    ensures |Escape(c)| == 1 <==> c >= ' ' && c !in "\"\\<>&\U{2028}\U{2029}"
    ensures |Escape(c)| == 2 <==> c in "\"\\\U{8}\U{C}\n\r\t"
    ensures |Escape(c)| == 1 || |Escape(c)| == 2 || (|Escape(c)| == 6 && forall i :: 0 <= i < 6 ==> !('A' <= Escape(c)[i] <= 'F'))
  {
  }
}
