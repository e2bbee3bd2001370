/** The parity oracle's canonical JSON: a complete invariant of equality up to the order of array elements. */
module ParityOracle {
  import opened Options
  import opened Text
  import opened Orders
  import opened Permutations
  import opened Json
  import opened JsonText

  // ---------- equality up to array order, at every depth ----------

  ghost predicate Equivalent(x: Json, y: Json)
    decreases x
  {
    if x.Arr? && y.Arr? then
      && |x.items| == |y.items|
      && exists p: seq<nat> :: IsPermutation(p, |x.items|)
           && forall i :: 0 <= i < |x.items| ==> Equivalent(x.items[i], y.items[p[i]])
    else if x.Obj? && y.Obj? then
      && x.members.Keys == y.members.Keys
      && forall k :: k in x.members ==> Equivalent(x.members[k], y.members[k])
    else x == y
  }

  // ---------- canonical form ----------

  predicate ByText(x: Json, y: Json) {
    NotAfter(Encode(x, Compact), Encode(y, Compact))
  }

  function Canon(v: Json): Json
    decreases v, 1
  {
    match v
    case Arr(items) => Arr(Sort(ByText, CanonItems(v)))
    case Obj(members) => Obj(map k | k in members :: Canon(members[k]))
    case _ => v
  }

  function CanonItems(v: Json): (r: seq<Json>)
    requires v.Arr?
    ensures |r| == |v.items|
    decreases v, 0
  {
    seq(|v.items|, i requires 0 <= i < |v.items| => Canon(v.items[i]))
  }

  method CanonicalParityValue(value: Json) returns (result: Json)
    ensures result == Canon(value)
    decreases value, 1
  {
    match value {
      case Obj(_) =>
        var members := CanonicalMembers(value);
        result := Obj(members);
      case Arr(_) =>
        var items := CanonicalItems(value);
        result := Arr(Sort(ByText, items));
      case _ =>
        result := value;
    }
  }

  /** All members but those still to come are in canonical form. */
  ghost predicate CanonExcept(value: Json, members: map<string, Json>, keys: set<string>)
    requires value.Obj?
  {
    && (forall k :: k in value.members <==> k in members || k in keys)
    && (forall k :: k in members ==> members[k] == Canon(value.members[k]))
  }

  lemma CanonMore(value: Json, members: map<string, Json>, keys: set<string>, key: string)
    requires value.Obj? && CanonExcept(value, members, keys) && key in keys
    ensures CanonExcept(value, members[key := Canon(value.members[key])], keys - {key})
  {
  }

  method CanonicalMembers(value: Json) returns (members: map<string, Json>)
    requires value.Obj?
    ensures Obj(members) == Canon(value)
    decreases value, 0
  {
    members := map[];
    var keys := value.members.Keys;
    while keys != {}
      invariant CanonExcept(value, members, keys)
      decreases |keys|
    {
      var key :| key in keys;
      var item := CanonicalParityValue(value.members[key]);
      CanonMore(value, members, keys, key);
      members := members[key := item];
      keys := keys - {key};
    }
    assert members == Canon(value).members;
  }

  method CanonicalItems(value: Json) returns (items: seq<Json>)
    requires value.Arr?
    ensures items == CanonItems(value)
    decreases value, 0
  {
    items := [];
    for i := 0 to |value.items|
      invariant |items| == i && forall k :: 0 <= k < i ==> items[k] == Canon(value.items[k])
    {
      var item := CanonicalParityValue(value.items[i]);
      items := items + [item];
    }
  }

  /** What the oracle compares: the indented canonical form, and a newline. */
  function ParityText(v: Json): string {
    Encode(Canon(v), Indented(0)) + "\n"
  }

  /** What one output becomes; `decode` stands for the JSON decoder, which reads the first value of the trimmed text. */
  function ParityJSON(decode: string -> Option<Json>, value: string): (r: (string, bool))
    ensures r.1 ==> decode(TrimSpace(value)).Some?
  {
    var trimmed := TrimSpace(value);
    if trimmed == "" || (trimmed[0] != '{' && trimmed[0] != '[') then (value, false)
    else match decode(trimmed)
         case None => (value, false)
         case Some(decoded) => (ParityText(decoded), true)
  }

  method CanonicalParityJSON(decode: string -> Option<Json>, value: string) returns (text: string, ok: bool)
    ensures (text, ok) == ParityJSON(decode, value)
  {
    var trimmed := TrimSpace(value);
    if trimmed == "" || (trimmed[0] != '{' && trimmed[0] != '[') {
      return value, false;
    }
    var decoded := decode(trimmed);
    if decoded == None {
      return value, false;
    }
    var canonical := CanonicalParityValue(decoded.value);
    return Encode(canonical, Indented(0)) + "\n", true;
  }

  // ---------- proofs ----------

  lemma ByTextIsTotal()
    ensures TotalOrder(ByText)
  {
    NotAfterIsTotal();
    forall x, y ensures ByText(x, y) || ByText(y, x)
      ensures ByText(x, y) && ByText(y, x) ==> x == y
    {
      if ByText(x, y) && ByText(y, x) {
        EncodeInjective(x, y, Compact);
      }
    }
  }

  /** Two values have the same canonical form exactly when they differ only in the order of array elements. */
  lemma {:induction false} CanonDecides(x: Json, y: Json)
    ensures Canon(x) == Canon(y) <==> Equivalent(x, y)
    decreases x
  {
    if x.Arr? && y.Arr? {
      CanonDecidesArrays(x, y);
    } else if x.Obj? && y.Obj? {
      forall k | k in x.members && k in y.members
        ensures Canon(x.members[k]) == Canon(y.members[k]) <==> Equivalent(x.members[k], y.members[k])
      {
        CanonDecides(x.members[k], y.members[k]);
      }
      var cx, cy := Canon(x).members, Canon(y).members;
      assert cx.Keys == x.members.Keys && cy.Keys == y.members.Keys;
      if Canon(x) == Canon(y) {
        assert forall k :: k in x.members ==> cx[k] == cy[k];
      }
    }
  }

  lemma {:induction false} CanonDecidesArrays(x: Json, y: Json)
    requires x.Arr? && y.Arr?
    ensures Canon(x) == Canon(y) <==> Equivalent(x, y)
    decreases x, 0
  {
    forall i, j | 0 <= i < |x.items| && 0 <= j < |y.items|
      ensures CanonItems(x)[i] == CanonItems(y)[j] <==> Equivalent(x.items[i], y.items[j])
    {
      CanonDecides(x.items[i], y.items[j]);
    }
    if Canon(x) == Canon(y) {
      SameCanonMatches(x, y);
    }
    if Equivalent(x, y) {
      var p: seq<nat> :| IsPermutation(p, |x.items|) && forall i :: 0 <= i < |x.items| ==> Equivalent(x.items[i], y.items[p[i]]);
      MatchSameCanon(x, y, p);
    }
  }

  ghost predicate CanonTells(x: Json, y: Json)
    requires x.Arr? && y.Arr?
  {
    forall i, j :: 0 <= i < |x.items| && 0 <= j < |y.items| ==>
      (CanonItems(x)[i] == CanonItems(y)[j] <==> Equivalent(x.items[i], y.items[j]))
  }

  lemma SameCanonMatches(x: Json, y: Json)
    requires x.Arr? && y.Arr? && CanonTells(x, y)
    requires Canon(x) == Canon(y)
    ensures Equivalent(x, y)
  {
    var a, b := CanonItems(x), CanonItems(y);
    var p := MultisetsMatch(a, b);
    forall i | 0 <= i < |x.items| ensures Equivalent(x.items[i], y.items[p[i]]) {
      assert a[i] == b[p[i]];
    }
  }

  lemma MatchSameCanon(x: Json, y: Json, p: seq<nat>)
    requires x.Arr? && y.Arr? && CanonTells(x, y)
    requires |x.items| == |y.items| && IsPermutation(p, |x.items|)
    requires forall i :: 0 <= i < |x.items| ==> Equivalent(x.items[i], y.items[p[i]])
    ensures Canon(x) == Canon(y)
  {
    var a, b := CanonItems(x), CanonItems(y);
    MatchedMultisets(a, b, p);
    ByTextIsTotal();
    SortCanonical(ByText, a, b);
  }

  /** The canonical form is itself a reordering of the value. */
  lemma {:induction false} CanonIsEquivalent(v: Json)
    ensures Equivalent(v, Canon(v))
  {
    match v {
      case Arr(items) =>
        var p := MultisetsMatch(CanonItems(v), Canon(v).items);
        forall i | 0 <= i < |items| ensures Equivalent(items[i], Canon(v).items[p[i]]) {
          CanonIsEquivalent(items[i]);
        }
      case Obj(members) =>
        forall k | k in members ensures Equivalent(members[k], Canon(v).members[k]) {
          CanonIsEquivalent(members[k]);
        }
      case _ =>
    }
  }

  lemma CanonIdempotent(v: Json)
    ensures Canon(Canon(v)) == Canon(v)
  {
    CanonIsEquivalent(v);
    CanonDecides(v, Canon(v));
  }

  /** End to end: the texts that the oracle compares are equal exactly for equivalent values. */
  lemma ParityTextDecides(x: Json, y: Json)
    ensures ParityText(x) == ParityText(y) <==> Equivalent(x, y)
  {
    CanonDecides(x, y);
    var s, t := Encode(Canon(x), Indented(0)), Encode(Canon(y), Indented(0));
    if s + "\n" == t + "\n" {
      assert s == (s + "\n")[..|s|] && t == (t + "\n")[..|t|];
      EncodeInjective(Canon(x), Canon(y), Indented(0));
    }
  }

  /** The text is taken for JSON: behind white space it starts like an object or an array, and the decoder reads it. */
  ghost predicate ReadAs(decode: string -> Option<Json>, value: string, v: Json) {
    var trimmed := TrimSpace(value);
    (HasPrefix(trimmed, "{") || HasPrefix(trimmed, "[")) && decode(trimmed) == Some(v)
  }

  /** Which texts are made canonical, and that all others stay as they are. */
  lemma {:induction false} ParityJSONReads(decode: string -> Option<Json>, value: string)
    ensures ParityJSON(decode, value).1 <==> exists v :: ReadAs(decode, value, v)
    ensures !ParityJSON(decode, value).1 ==> ParityJSON(decode, value).0 == value
    ensures forall v :: ReadAs(decode, value, v) ==> ParityJSON(decode, value) == (ParityText(v), true)
  {
    var trimmed := TrimSpace(value);
    assert HasPrefix(trimmed, "{") <==> trimmed != "" && trimmed[0] == '{';
    assert HasPrefix(trimmed, "[") <==> trimmed != "" && trimmed[0] == '[';
    if ParityJSON(decode, value).1 {
      assert ReadAs(decode, value, decode(trimmed).value);
    }
  }

  /** Two outputs that are both read as JSON become the same text exactly when they decode to equivalent values. */
  lemma {:induction false} ParityJSONDecides(decode: string -> Option<Json>, v: string, x: Json, w: string, y: Json)
    requires ReadAs(decode, v, x) && ReadAs(decode, w, y)
    ensures ParityJSON(decode, v).0 == ParityJSON(decode, w).0 <==> Equivalent(x, y)
  {
    ParityJSONReads(decode, v);
    ParityJSONReads(decode, w);
    ParityTextDecides(x, y);
  }

  lemma EquivalenceRelation(x: Json, y: Json, z: Json)
    ensures Equivalent(x, x)
    ensures Equivalent(x, y) ==> Equivalent(y, x)
    ensures Equivalent(x, y) && Equivalent(y, z) ==> Equivalent(x, z)
  {
    CanonDecides(x, x);
    CanonDecides(x, y);
    CanonDecides(y, x);
    CanonDecides(y, z);
    CanonDecides(x, z);
  }

  // ---------- what the canonical form looks like ----------

  /** At every depth, the elements of an array stand in the order of their compact texts. */
  ghost predicate ArraysSorted(v: Json)
    decreases v
  {
    match v
    case Arr(items) =>
      && (forall i, j :: 0 <= i < j < |items| ==> NotAfter(Encode(items[i], Compact), Encode(items[j], Compact)))
      && (forall i :: 0 <= i < |items| ==> ArraysSorted(items[i]))
    case Obj(members) => forall k :: k in members ==> ArraysSorted(members[k])
    case _ => true
  }

  lemma {:induction false} CanonSorted(v: Json)
    ensures ArraysSorted(Canon(v))
  {
    match v {
      case Arr(items) =>
        var a, r := CanonItems(v), Canon(v).items;
        ByTextIsTotal();
        SortSorts(ByText, a);
        forall i | 0 <= i < |r| ensures ArraysSorted(r[i]) {
          assert r[i] in multiset(r);
          var j :| 0 <= j < |a| && a[j] == r[i];
          CanonSorted(items[j]);
        }
        forall i, j | 0 <= i < j < |r| ensures NotAfter(Encode(r[i], Compact), Encode(r[j], Compact)) {
          assert ByText(r[i], r[j]);
        }
      case Obj(members) =>
        forall k | k in members ensures ArraysSorted(Canon(v).members[k]) {
          CanonSorted(members[k]);
        }
      case _ =>
    }
  }

  lemma {:induction false} SortedIsCanonical(v: Json)
    requires ArraysSorted(v)
    ensures Canon(v) == v
  {
    match v {
      case Arr(items) =>
        forall i | 0 <= i < |items| ensures CanonItems(v)[i] == items[i] {
          SortedIsCanonical(items[i]);
        }
        assert CanonItems(v) == items;
        SortingSorted(items);
      case Obj(members) =>
        forall k | k in members ensures Canon(members[k]) == members[k] {
          SortedIsCanonical(members[k]);
        }
        assert Canon(v).members == members;
      case _ =>
    }
  }

  lemma SortingSorted(items: seq<Json>)
    requires forall i, j :: 0 <= i < j < |items| ==> NotAfter(Encode(items[i], Compact), Encode(items[j], Compact))
    ensures Sort(ByText, items) == items
  {
    ByTextIsTotal();
    forall i, j | 0 <= i < j < |items| ensures ByText(items[i], items[j]) {
    }
    SortSorts(ByText, items);
    SortedUnique(ByText, Sort(ByText, items), items);
  }

  /** The canonical form is the only value that is equivalent to the given one and has all arrays sorted. */
  lemma {:induction false} CanonIsTheSortedOne(v: Json, w: Json)
    ensures w == Canon(v) <==> Equivalent(v, w) && ArraysSorted(w)
  {
    CanonIsEquivalent(v);
    CanonSorted(v);
    if Equivalent(v, w) && ArraysSorted(w) {
      CanonDecides(v, w);
      SortedIsCanonical(w);
    }
  }

  /** A text that is read becomes the indented text, with a newline, of a reordering of its value that has all arrays sorted. */
  lemma {:induction false} ReadBecomesSorted(decode: string -> Option<Json>, value: string, v: Json) returns (w: Json)
    requires ReadAs(decode, value, v)
    ensures Equivalent(v, w) && ArraysSorted(w)
    ensures ParityJSON(decode, value) == (Encode(w, Indented(0)) + "\n", true)
  {
    w := Canon(v);
    ParityJSONReads(decode, value);
    CanonIsEquivalent(v);
    CanonSorted(v);
  }
}
