/** JSON values as Go decodes them, and the texts that `json.Marshal` and `json.MarshalIndent` give them. */
module Json {
  import opened Orders

  predicate NumberChar(c: char) {
    '0' <= c <= '9' || c == '-' || c == '+' || c == '.' || c == 'e' || c == 'E'
  }

  /** The literal text of a `json.Number`. */
  type Number = s: string | s != "" && forall c :: c in s ==> NumberChar(c) witness "0"

  datatype Json =
    | Null
    | Bool(b: bool)
    | Num(n: Number)
    | Str(s: string)
    | Arr(items: seq<Json>)
    | Obj(members: map<string, Json>)

  /** Compact output, or indented output at a nesting depth. */
  datatype Layout = Compact | Indented(depth: nat)

  function Deeper(l: Layout): Layout {
    if l == Compact then Compact else Indented(l.depth + 1)
  }

  function Spaces(n: nat): string {
    if n == 0 then "" else "  " + Spaces(n - 1)
  }

  function Break(l: Layout): string {
    if l == Compact then "" else "\n" + Spaces(l.depth)
  }

  function Colon(l: Layout): string {
    if l == Compact then ":" else ": "
  }

  /** What precedes element `i` of a list, and what follows the last of `n` elements. */
  function Opening(l: Layout, i: nat): string {
    (if i == 0 then "" else ",") + Break(Deeper(l))
  }

  function Closing(l: Layout, n: nat): string {
    if n == 0 then "" else Break(l)
  }

  // ---------- strings ----------

  function Hex(n: nat): char
    requires n < 16
  {
    "0123456789abcdef"[n]
  }

  /** How one character is written inside a string literal, with the HTML-safe escapes of `encoding/json`. */
  function Escape(c: char): string {
    if c == '"' then "\\\"" else if c == '\\' then "\\\\"
    else if c == '\U{8}' then "\\b" else if c == '\U{C}' then "\\f"
    else if c == '\n' then "\\n" else if c == '\r' then "\\r" else if c == '\t' then "\\t"
    else if c < ' ' || c == '<' || c == '>' || c == '&' then "\\u00" + [Hex(c as int / 16), Hex(c as int % 16)]
    else if c == '\U{2028}' then "\\u2028" else if c == '\U{2029}' then "\\u2029"
    else [c]
  }

  function EscapeAll(s: string): string {
    if s == "" then "" else Escape(s[0]) + EscapeAll(s[1..])
  }

  function Quote(s: string): string {
    "\"" + EscapeAll(s) + "\""
  }

  // ---------- values ----------

  function Encode(v: Json, l: Layout): string
    decreases v, 2, 0
  {
    match v
    case Null => "null"
    case Bool(b) => if b then "true" else "false"
    case Num(n) => n
    case Str(s) => Quote(s)
    case Arr(items) => "[" + EncodeItems(v, l, 0) + "]"
    case Obj(members) => "{" + EncodeMembers(v, SortedSet(members.Keys), l, 0) + "}"
  }

  /** The items from `i` on, each on its own line when indented. */
  function EncodeItems(v: Json, l: Layout, i: nat): string
    requires v.Arr? && i <= |v.items|
    decreases v, 1, |v.items| - i
  {
    if i == |v.items| then Closing(l, i)
    else Opening(l, i) + (Encode(v.items[i], Deeper(l)) + EncodeItems(v, l, i + 1))
  }

  function EncodeMembers(v: Json, keys: seq<string>, l: Layout, i: nat): string
    requires v.Obj? && i <= |keys| && forall k :: k in keys ==> k in v.members
    decreases v, 1, |keys| - i
  {
    if i == |keys| then Closing(l, i)
    else Opening(l, i) + (Quote(keys[i]) + (Colon(l) + (Encode(v.members[keys[i]], Deeper(l)) + EncodeMembers(v, keys, l, i + 1))))
  }
}
