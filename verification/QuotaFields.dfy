/** Which per-type quota fields are shown, and in which order, whatever order the map of quotas is walked in. */
module QuotaFields {
  import opened Text
  import opened Orders

  const PREFIXES: seq<string> := ["volumes_", "gigabytes_", "snapshots_"]

  /** The quota key of volume type `t` under prefix `p`. */
  function KeyFor(p: nat, t: string): string
    requires p < 3
  {
    PREFIXES[p] + t
  }

  /** Which prefix a key has, or 3. */
  function PrefixOf(key: string): (p: nat)
    ensures p <= 3
  {
    if HasPrefix(key, "volumes_") then 0
    else if HasPrefix(key, "gigabytes_") then 1
    else if HasPrefix(key, "snapshots_") then 2
    else 3
  }

  predicate Typed(key: string) {
    PrefixOf(key) < 3
  }

  function TypeOf(key: string): string
    requires Typed(key)
  {
    key[|PREFIXES[PrefixOf(key)]|..]
  }

  lemma KeyForIs(p: nat, t: string)
    requires p < 3
    ensures PrefixOf(KeyFor(p, t)) == p && TypeOf(KeyFor(p, t)) == t
  {
    var key := KeyFor(p, t);
    assert key[0] == PREFIXES[p][0];
    assert key[|PREFIXES[p]|..] == t;
    assert PREFIXES[p] <= key;
  }

  lemma TypedIsKeyFor(key: string)
    requires Typed(key)
    ensures KeyFor(PrefixOf(key), TypeOf(key)) == key
  {
  }

  // ---------- the order of the types ----------

  function SeenTypes(quota: set<string>): set<string> {
    set key | key in quota && Typed(key) :: TypeOf(key)
  }

  /** The names that were seen, each where it is first listed. */
  function Listed(seen: set<string>, names: seq<string>): seq<string> {
    if names == [] then []
    else
      var front, last := Listed(seen, names[..|names| - 1]), names[|names| - 1];
      if last in seen && last !in front then front + [last] else front
  }

  function OrderedTypes(seen: set<string>, names: seq<string>): seq<string> {
    var listed := Listed(seen, names);
    listed + SortedSet(seen - set t | t in listed)
  }

  // ---------- the fields ----------

  function TypeFields(quota: set<string>, t: string, p: nat): seq<string>
    requires p <= 3
  {
    if p == 0 then []
    else TypeFields(quota, t, p - 1) + if KeyFor(p - 1, t) in quota then [KeyFor(p - 1, t)] else []
  }

  function FieldsUpTo(quota: set<string>, types: seq<string>, n: nat): seq<string>
    requires n <= |types|
  {
    if n == 0 then [] else FieldsUpTo(quota, types, n - 1) + TypeFields(quota, types[n - 1], 3)
  }

  function AllFields(quota: set<string>, names: seq<string>): seq<string> {
    var types := OrderedTypes(SeenTypes(quota), names);
    FieldsUpTo(quota, types, |types|)
  }

  // ---------- the program ----------

  method TypesSeen(quota: set<string>) returns (typeSeen: set<string>)
    ensures typeSeen == SeenTypes(quota)
  {
    typeSeen := {};
    var rest := quota;
    while rest != {}
      invariant rest <= quota && typeSeen == SeenTypes(quota - rest)
      decreases |rest|
    {
      var key :| key in rest;
      assert quota - (rest - {key}) == (quota - rest) + {key};
      for p := 0 to 3
        invariant typeSeen == SeenTypes(quota - rest) && PrefixOf(key) >= p
      {
        if HasPrefix(key, PREFIXES[p]) {
          typeSeen := typeSeen + {key[|PREFIXES[p]|..]};
          break;
        }
      }
      rest := rest - {key};
    }
    assert quota - {} == quota;
  }

  method TypesInOrder(typeSeen: set<string>, typeNames: seq<string>) returns (orderedTypes: seq<string>)
    ensures orderedTypes == OrderedTypes(typeSeen, typeNames)
  {
    orderedTypes := [];
    var usedTypes: set<string> := {};
    for i := 0 to |typeNames|
      invariant orderedTypes == Listed(typeSeen, typeNames[..i])
      invariant usedTypes == set t | t in orderedTypes
    {
      assert typeNames[..i + 1][..i] == typeNames[..i];
      if typeNames[i] in typeSeen && typeNames[i] !in usedTypes {
        orderedTypes := orderedTypes + [typeNames[i]];
        usedTypes := usedTypes + {typeNames[i]};
      }
    }
    assert typeNames[..|typeNames|] == typeNames;
    var remaining: seq<string> := [];
    var rest := typeSeen;
    while rest != {}
      invariant rest <= typeSeen
      invariant multiset(remaining) == multiset((typeSeen - rest) - usedTypes)
      decreases |rest|
    {
      var name :| name in rest;
      if name in usedTypes {
        assert (typeSeen - (rest - {name})) - usedTypes == (typeSeen - rest) - usedTypes;
      } else {
        remaining := remaining + [name];
        assert (typeSeen - (rest - {name})) - usedTypes == ((typeSeen - rest) - usedTypes) + {name};
      }
      rest := rest - {name};
    }
    assert (typeSeen - {}) - usedTypes == typeSeen - usedTypes;
    SortOfSet(remaining, typeSeen - usedTypes);
    orderedTypes := orderedTypes + SortStrings(remaining);
  }

  method QuotaVolumeTypeFields(quota: set<string>, typeNames: seq<string>) returns (fields: seq<string>)
    ensures fields == AllFields(quota, typeNames)
  {
    var typeSeen := TypesSeen(quota);
    var orderedTypes := TypesInOrder(typeSeen, typeNames);
    fields := [];
    for n := 0 to |orderedTypes|
      invariant fields == FieldsUpTo(quota, orderedTypes, n)
    {
      ghost var before := fields;
      for p := 0 to 3
        invariant fields == before + TypeFields(quota, orderedTypes[n], p)
      {
        var key := PREFIXES[p] + orderedTypes[n];
        if key in quota {
          fields := fields + [key];
        }
      }
    }
  }

  // ---------- laws ----------

  lemma {:induction false} ListedIs(seen: set<string>, names: seq<string>)
    ensures NoDuplicates(Listed(seen, names))
    ensures forall t :: t in Listed(seen, names) <==> t in seen && t in names
  {
    if names == [] {
    } else {
      ListedIs(seen, names[..|names| - 1]);
      assert names == names[..|names| - 1] + [names[|names| - 1]];
    }
  }

  /** Where a name is first listed, or the length of the list. */
  function FirstIndex(names: seq<string>, t: string): nat {
    if names == [] || names[0] == t then 0 else 1 + FirstIndex(names[1..], t)
  }

  lemma {:induction false} FirstIndexOfPrefix(names: seq<string>, more: seq<string>, t: string)
    ensures t in names ==> FirstIndex(names + more, t) == FirstIndex(names, t) < |names|
    ensures t !in names ==> FirstIndex(names + more, t) == |names| + FirstIndex(more, t)
  {
    if names == [] {
      assert names + more == more;
    } else {
      FirstIndexOfPrefix(names[1..], more, t);
      assert (names + more)[1..] == names[1..] + more;
      assert names == [names[0]] + names[1..];
    }
  }

  lemma {:induction false} ListedInOrder(seen: set<string>, names: seq<string>, i: nat, j: nat)
    requires i < j < |Listed(seen, names)|
    ensures FirstIndex(names, Listed(seen, names)[i]) < FirstIndex(names, Listed(seen, names)[j])
  {
    var front, last := names[..|names| - 1], names[|names| - 1];
    var before := Listed(seen, front);
    ListedIs(seen, front);
    assert names == front + [last];
    FirstIndexOfPrefix(front, [last], Listed(seen, names)[i]);
    FirstIndexOfPrefix(front, [last], Listed(seen, names)[j]);
    if j < |before| {
      ListedInOrder(seen, front, i, j);
    }
  }

  /** Type `t` goes before type `u`: listed ones first, in the order of the list, and the others alphabetically. */
  ghost predicate TypeBefore(names: seq<string>, t: string, u: string) {
    if u in names then t in names && FirstIndex(names, t) < FirstIndex(names, u)
    else t in names || NotAfter(t, u)
  }

  lemma JoinedDistinct(a: seq<string>, b: seq<string>)
    requires NoDuplicates(a) && NoDuplicates(b) && forall t :: t in b ==> t !in a
    ensures NoDuplicates(a + b)
  {
    forall i, j | 0 <= i < j < |a + b| ensures (a + b)[i] != (a + b)[j] {
      if i < |a| <= j {
        assert (a + b)[j] == b[j - |a|] && b[j - |a|] in b;
      }
    }
  }

  lemma RestSorted(seen: set<string>, names: seq<string>)
    ensures var rest := SortedSet(seen - set t | t in Listed(seen, names));
            && NoDuplicates(rest) && SortedBy(NotAfter, rest)
            && (forall t :: t in rest <==> t in seen && t !in names)
  {
    ListedIs(seen, names);
    SortedSetSorted(seen - set t | t in Listed(seen, names));
  }

  /** Types listed by the service come first, in its order; the others follow alphabetically; none is lost or repeated. */
  lemma TypesOrdered(seen: set<string>, names: seq<string>)
    ensures var types := OrderedTypes(seen, names);
            && NoDuplicates(types)
            && (forall t :: t in types <==> t in seen)
            && (forall i, j :: 0 <= i < j < |types| ==> TypeBefore(names, types[i], types[j]))
  {
    var listed := Listed(seen, names);
    var rest := SortedSet(seen - set t | t in listed);
    ListedIs(seen, names);
    RestSorted(seen, names);
    JoinedDistinct(listed, rest);
    forall i, j | 0 <= i < j < |listed + rest| ensures TypeBefore(names, (listed + rest)[i], (listed + rest)[j]) {
      if j < |listed| {
        ListedInOrder(seen, names, i, j);
      } else if i >= |listed| {
        assert NotAfter(rest[i - |listed|], rest[j - |listed|]);
      }
    }
  }

  /** The place of a key: first by its type, then by its prefix. */
  function Rank(types: seq<string>, key: string): nat
    requires Typed(key)
  {
    3 * FirstIndex(types, TypeOf(key)) + PrefixOf(key)
  }

  /** All keys are typed and stand in strictly increasing rank, all ranks being in a range. */
  ghost predicate RankedWithin(types: seq<string>, keys: seq<string>, lo: int, hi: int) {
    && (forall i :: 0 <= i < |keys| ==> Typed(keys[i]) && lo <= Rank(types, keys[i]) < hi)
    && (forall i, j :: 0 <= i < j < |keys| ==> Rank(types, keys[i]) < Rank(types, keys[j]))
  }

  lemma RankedAppend(types: seq<string>, a: seq<string>, b: seq<string>, lo: int, mid: int, hi: int)
    requires RankedWithin(types, a, lo, mid) && RankedWithin(types, b, mid, hi) && lo <= mid <= hi
    ensures RankedWithin(types, a + b, lo, hi)
  {
  }

  lemma {:induction false} IndexOfDistinct(types: seq<string>, n: nat)
    requires NoDuplicates(types) && n < |types|
    ensures FirstIndex(types, types[n]) == n
  {
    if n == 0 {
    } else {
      IndexOfDistinct(types[1..], n - 1);
    }
  }

  lemma KeyForIff(p: nat, t: string, key: string)
    requires p < 3
    ensures key == KeyFor(p, t) <==> Typed(key) && TypeOf(key) == t && PrefixOf(key) == p
  {
    KeyForIs(p, t);
    if Typed(key) {
      TypedIsKeyFor(key);
    }
  }

  lemma KeyRanked(types: seq<string>, n: nat, p: nat)
    requires NoDuplicates(types) && n < |types| && p < 3
    ensures RankedWithin(types, [KeyFor(p, types[n])], 3 * n + p, 3 * n + p + 1)
  {
    KeyForIs(p, types[n]);
    IndexOfDistinct(types, n);
  }

  lemma {:induction false} TypeFieldsRanked(quota: set<string>, types: seq<string>, n: nat, p: nat)
    requires NoDuplicates(types) && n < |types| && p <= 3
    ensures RankedWithin(types, TypeFields(quota, types[n], p), 3 * n, 3 * n + p)
  {
    if p == 0 {
    } else {
      var key := KeyFor(p - 1, types[n]);
      TypeFieldsRanked(quota, types, n, p - 1);
      KeyRanked(types, n, p - 1);
      var last := if key in quota then [key] else [];
      RankedAppend(types, TypeFields(quota, types[n], p - 1), last, 3 * n, 3 * n + p - 1, 3 * n + p);
    }
  }

  lemma {:induction false} TypeFieldsAre(quota: set<string>, t: string, p: nat, key: string)
    requires p <= 3
    ensures key in TypeFields(quota, t, p) <==> key in quota && Typed(key) && TypeOf(key) == t && PrefixOf(key) < p
  {
    if p == 0 {
    } else {
      TypeFieldsAre(quota, t, p - 1, key);
      KeyForIff(p - 1, t, key);
    }
  }

  lemma {:induction false} FieldsRanked(quota: set<string>, types: seq<string>, n: nat)
    requires NoDuplicates(types) && n <= |types|
    ensures RankedWithin(types, FieldsUpTo(quota, types, n), 0, 3 * n)
  {
    if n == 0 {
    } else {
      FieldsRanked(quota, types, n - 1);
      TypeFieldsRanked(quota, types, n - 1, 3);
      RankedAppend(types, FieldsUpTo(quota, types, n - 1), TypeFields(quota, types[n - 1], 3), 0, 3 * (n - 1), 3 * n);
    }
  }

  lemma {:induction false} FieldsComplete(quota: set<string>, types: seq<string>, n: nat, key: string)
    requires NoDuplicates(types) && n <= |types|
    ensures key in FieldsUpTo(quota, types, n) <==> key in quota && Typed(key) && TypeOf(key) in types[..n]
  {
    if n == 0 {
    } else {
      FieldsComplete(quota, types, n - 1, key);
      TypeFieldsAre(quota, types[n - 1], 3, key);
      assert types[..n] == types[..n - 1] + [types[n - 1]];
    }
  }

  /**
   * The fields are exactly the quota keys with one of the three prefixes, each once, grouped by type in the order of the
   * types and by prefix within a type.
   */
  lemma FieldsExactly(quota: set<string>, names: seq<string>)
    ensures var fields := AllFields(quota, names);
            var types := OrderedTypes(SeenTypes(quota), names);
            && (forall key :: key in fields <==> key in quota && Typed(key))
            && RankedWithin(types, fields, 0, 3 * |types|)
            && NoDuplicates(fields)
  {
    var types := OrderedTypes(SeenTypes(quota), names);
    TypesOrdered(SeenTypes(quota), names);
    FieldsRanked(quota, types, |types|);
    assert types[..|types|] == types;
    forall key ensures key in AllFields(quota, names) <==> key in quota && Typed(key) {
      FieldsComplete(quota, types, |types|, key);
    }
  }

  /** Which of the three prefixes comes first within a type. */
  predicate PrefixBefore(p: string, q: string) {
    (p == "volumes_" && (q == "gigabytes_" || q == "snapshots_")) || (p == "gigabytes_" && q == "snapshots_")
  }

  predicate IsPrefix(p: string) {
    p == "volumes_" || p == "gigabytes_" || p == "snapshots_"
  }

  /** A quota key is shown exactly when it starts with one of the prefixes. */
  lemma ShownExactly(quota: set<string>, names: seq<string>, key: string)
    ensures key in AllFields(quota, names)
            <==> key in quota && ("volumes_" <= key || "gigabytes_" <= key || "snapshots_" <= key)
  {
    FieldsExactly(quota, names);
  }

  lemma RankOf(types: seq<string>, p: string, t: string)
    requires IsPrefix(p)
    ensures Typed(p + t) && Rank(types, p + t) == 3 * FirstIndex(types, t) + if p == "volumes_" then 0 else if p == "gigabytes_" then 1 else 2
  {
    var n := if p == "volumes_" then 0 else if p == "gigabytes_" then 1 else 2;
    assert p + t == KeyFor(n, t);
    KeyForIs(n, t);
  }

  lemma {:induction false} FirstIndexAt(types: seq<string>, t: string)
    requires t in types
    ensures FirstIndex(types, t) < |types| && types[FirstIndex(types, t)] == t
  {
    if types[0] != t {
      FirstIndexAt(types[1..], t);
    }
  }

  /** Fields of one type stand in the order of their prefixes, and those of different types in the order of the types. */
  lemma FieldsInOrder(quota: set<string>, names: seq<string>, i: nat, p: string, t: string, j: nat, q: string, u: string)
    requires i < j < |AllFields(quota, names)| && IsPrefix(p) && IsPrefix(q)
    requires AllFields(quota, names)[i] == p + t && AllFields(quota, names)[j] == q + u
    ensures if t == u then PrefixBefore(p, q) else TypeBefore(names, t, u)
  {
    var types := OrderedTypes(SeenTypes(quota), names);
    RanksIncrease(quota, names, i, j);
    RankOf(types, p, t);
    RankOf(types, q, u);
    if t != u {
      SeenOf(quota, p, t);
      SeenOf(quota, q, u);
      InTypeOrder(SeenTypes(quota), names, t, u);
    }
  }

  lemma RanksIncrease(quota: set<string>, names: seq<string>, i: nat, j: nat)
    requires i < j < |AllFields(quota, names)|
    ensures var fields, types := AllFields(quota, names), OrderedTypes(SeenTypes(quota), names);
            && fields[i] in quota && fields[j] in quota && Typed(fields[i]) && Typed(fields[j])
            && Rank(types, fields[i]) < Rank(types, fields[j])
  {
    FieldsExactly(quota, names);
    assert AllFields(quota, names)[i] in AllFields(quota, names) && AllFields(quota, names)[j] in AllFields(quota, names);
  }

  lemma InTypeOrder(seen: set<string>, names: seq<string>, t: string, u: string)
    requires t in seen && u in seen && t != u
    requires FirstIndex(OrderedTypes(seen, names), t) <= FirstIndex(OrderedTypes(seen, names), u)
    ensures TypeBefore(names, t, u)
  {
    var types := OrderedTypes(seen, names);
    TypesOrdered(seen, names);
    FirstIndexAt(types, t);
    FirstIndexAt(types, u);
  }

  lemma SeenOf(quota: set<string>, p: string, t: string)
    requires IsPrefix(p) && p + t in quota
    ensures t in SeenTypes(quota)
  {
    var n := if p == "volumes_" then 0 else if p == "gigabytes_" then 1 else 2;
    assert p + t == KeyFor(n, t);
    KeyForIs(n, t);
  }
}
