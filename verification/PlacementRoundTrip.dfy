/** Printing resource amounts, and exactly when parsing the printed allocation gives it back. */
module PlacementRoundTrip {
  import opened Text
  import opened Orders
  import opened Permutations
  import opened Decimal
  import opened Placement

  function Part(c: string, amount: int): string {
    c + "=" + Itoa(amount)
  }

  function Parts(resources: Resources, classes: seq<string>): (r: seq<string>)
    requires forall c :: c in classes ==> c in resources
    ensures |r| == |classes| && forall i :: 0 <= i < |r| ==> r[i] == Part(classes[i], resources[classes[i]])
  {
    seq(|classes|, i requires 0 <= i < |classes| => Part(classes[i], resources[classes[i]]))
  }

  function SortedParts(resources: Resources): seq<string> {
    SortStrings(Parts(resources, SortedSet(resources.Keys)))
  }

  /** The printed amounts, from any listing of the classes: sorting removes the order. */
  function Amounts(resources: Resources): string {
    Join(SortedParts(resources), ',')
  }

  lemma PartsPermuted(resources: Resources, a: seq<string>, b: seq<string>)
    requires multiset(a) == multiset(b)
    requires (forall c :: c in a ==> c in resources) && (forall c :: c in b ==> c in resources)
    ensures multiset(Parts(resources, a)) == multiset(Parts(resources, b))
  {
    var p := MultisetsMatch(a, b);
    MatchedMultisets(Parts(resources, a), Parts(resources, b), p);
  }

  lemma PartsSnoc(resources: Resources, classes: seq<string>, c: string)
    requires (forall d :: d in classes ==> d in resources) && c in resources
    ensures Parts(resources, classes + [c]) == Parts(resources, classes) + [Part(c, resources[c])]
  {
  }

  lemma AnyOrder(resources: Resources, classes: seq<string>)
    requires (forall c :: c in classes ==> c in resources) && multiset(classes) == multiset(resources.Keys)
    ensures SortStrings(Parts(resources, classes)) == SortedParts(resources)
  {
    var keys := SortedSet(resources.Keys);
    PartsPermuted(resources, classes, keys);
    NotAfterIsTotal();
    SortCanonical(NotAfter, Parts(resources, classes), Parts(resources, keys));
  }

  /** The printed parts are those of all classes, once each and in alphabetical order. */
  lemma PrintedInOrder(resources: Resources)
    ensures var parts := SortedParts(resources);
            && |parts| == |resources.Keys|
            && (forall i, j :: 0 <= i < j < |parts| ==> !Before(parts[j], parts[i]))
            && (forall part :: part in parts <==> exists c :: c in resources && part == c + "=" + Itoa(resources[c]))
  {
    var keys := SortedSet(resources.Keys);
    var unsorted, parts := Parts(resources, keys), SortedParts(resources);
    NotAfterIsTotal();
    SortSorts(NotAfter, unsorted);
    assert |keys| == |multiset(keys)| == |resources.Keys|;
    forall i, j | 0 <= i < j < |parts| ensures !Before(parts[j], parts[i]) {
      assert NotAfter(parts[i], parts[j]);
    }
    forall part ensures part in parts <==> part in unsorted {
      assert part in parts <==> part in multiset(parts);
      assert part in unsorted <==> part in multiset(unsorted);
    }
    forall part ensures part in unsorted <==> exists c :: c in resources && part == c + "=" + Itoa(resources[c]) {
      PartOfClass(resources, part);
    }
  }

  lemma PartOfClass(resources: Resources, part: string)
    ensures var keys := SortedSet(resources.Keys);
            part in Parts(resources, keys) <==> exists c :: c in resources && part == c + "=" + Itoa(resources[c])
  {
    var keys := SortedSet(resources.Keys);
    if c :| c in resources && part == c + "=" + Itoa(resources[c]) {
      assert c in keys;
      var i :| 0 <= i < |keys| && keys[i] == c;
      assert Parts(resources, keys)[i] == part;
    }
    if part in Parts(resources, keys) {
      var i :| 0 <= i < |keys| && Parts(resources, keys)[i] == part;
      assert keys[i] in resources;
    }
  }

  method PlacementResourceAmounts(values: Resources) returns (text: string)
    ensures text == Amounts(values)
  {
    var parts: seq<string> := [];
    var rest := values.Keys;
    ghost var classes: seq<string> := [];
    while rest != {}
      invariant rest <= values.Keys && forall c :: c in classes ==> c in values
      invariant multiset(classes) + multiset(rest) == multiset(values.Keys)
      invariant parts == Parts(values, classes)
      decreases |rest|
    {
      var resourceClass :| resourceClass in rest;
      PartsSnoc(values, classes, resourceClass);
      parts := parts + [Part(resourceClass, values[resourceClass])];
      classes := classes + [resourceClass];
      rest := rest - {resourceClass};
    }
    AnyOrder(values, classes);
    text := Join(SortStrings(parts), ',');
  }

  // ---------- round trip ----------

  /** A name that the format can carry. */
  predicate Clean(s: string) {
    '=' !in s && ',' !in s
  }

  /** The allocation string for one provider. */
  function Line(provider: string, resources: Resources): string {
    "rp=" + provider + "," + Amounts(resources)
  }

  ghost predicate Printable(provider: string, resources: Resources) {
    provider != "" && Clean(provider) && resources != map[] && forall c :: c in resources ==> Clean(c) && c != "rp"
  }

  lemma {:induction false} DigitsAreClean(n: nat)
    ensures Clean(Digits(n))
  {
    if n >= 10 {
      DigitsAreClean(n / 10);
    }
    assert ('0' + (n % 10) as char) != '=' && ('0' + (n % 10) as char) != ',';
  }

  lemma ItoaIsClean(n: int)
    ensures Clean(Itoa(n))
  {
    DigitsAreClean(if n < 0 then -n else n);
  }

  lemma PartParses(c: string, amount: Int64, provider: string, acc: Resources)
    requires Clean(c) && c != "rp"
    ensures ',' !in Part(c, amount)
    ensures ParseParts([Part(c, amount)], provider, acc) == Ok((provider, acc[c := amount]))
  {
    ItoaIsClean(amount);
    SplitFirst(c, '=', Itoa(amount));
    SplitNone(Itoa(amount), '=');
    assert c + ['='] + Itoa(amount) == Part(c, amount);
    AtoiOfItoa(amount);
    assert [Part(c, amount)][1..] == [];
  }

  /** Every part stands for one of the resources. */
  ghost predicate AllParts(parts: seq<string>, resources: Resources) {
    forall i :: 0 <= i < |parts| ==> IsPart(parts[i], resources)
  }

  ghost predicate IsPart(part: string, resources: Resources) {
    exists c :: c in resources && part == Part(c, resources[c])
  }

  lemma SamePart(resources: Resources, c: string, d: string)
    requires c in resources && d in resources && Clean(c) && Clean(d)
    requires Part(c, resources[c]) == Part(d, resources[d])
    ensures c == d
  {
    SplitFirst(c, '=', Itoa(resources[c]));
    SplitFirst(d, '=', Itoa(resources[d]));
    assert c + ['='] + Itoa(resources[c]) == Part(c, resources[c]);
    assert d + ['='] + Itoa(resources[d]) == Part(d, resources[d]);
    assert ([c] + Split(Itoa(resources[c]), '='))[0] == ([d] + Split(Itoa(resources[d]), '='))[0];
  }

  ghost predicate Within(r: Resources, resources: Resources) {
    forall c :: c in r ==> c in resources && r[c] == resources[c]
  }

  lemma FirstPart(parts: seq<string>, resources: Resources, provider: string, acc: Resources) returns (c: string)
    requires parts != [] && AllParts(parts, resources) && forall d :: d in resources ==> Clean(d) && d != "rp"
    ensures c in resources && parts[0] == Part(c, resources[c])
    ensures ParseParts(parts, provider, acc) == ParseParts(parts[1..], provider, acc[c := resources[c]])
  {
    assert IsPart(parts[0], resources);
    c :| c in resources && parts[0] == Part(c, resources[c]);
    PartParses(c, resources[c], provider, acc);
    ParsePartsStep(parts, 0, provider, acc);
    assert parts[0..] == parts;
  }

  ghost predicate Printed(parts: seq<string>, resources: Resources, c: string) {
    c in resources && Part(c, resources[c]) in parts
  }

  lemma InRest(parts: seq<string>, p: string)
    requires parts != [] && p in parts && p != parts[0]
    ensures p in parts[1..]
  {
    assert parts == [parts[0]] + parts[1..];
  }

  lemma PrintedRest(parts: seq<string>, resources: Resources, c: string, d: string)
    requires parts != [] && c in resources && parts[0] == Part(c, resources[c]) && Printed(parts, resources, d)
    requires Clean(c) && Clean(d)
    ensures d == c || Printed(parts[1..], resources, d)
  {
    if Part(d, resources[d]) == parts[0] {
      SamePart(resources, c, d);
    } else {
      InRest(parts, Part(d, resources[d]));
    }
  }

  lemma {:induction false} PartsParse(parts: seq<string>, resources: Resources, provider: string, acc: Resources)
    requires AllParts(parts, resources) && forall c :: c in resources ==> Clean(c) && c != "rp"
    requires Within(acc, resources)
    ensures ParseParts(parts, provider, acc).Ok? && ParseParts(parts, provider, acc).value.0 == provider
    ensures Within(ParseParts(parts, provider, acc).value.1, resources)
    ensures forall c :: c in acc || Printed(parts, resources, c) ==> c in ParseParts(parts, provider, acc).value.1
  {
    if parts == [] {
    } else {
      var c := FirstPart(parts, resources, provider, acc);
      PartsParse(parts[1..], resources, provider, acc[c := resources[c]]);
      forall d | Printed(parts, resources, d) ensures d == c || Printed(parts[1..], resources, d) {
        PrintedRest(parts, resources, c, d);
      }
    }
  }

  lemma SplitOfLine(provider: string, parts: seq<string>)
    requires Clean(provider) && parts != [] && forall p :: p in parts ==> ',' !in p
    ensures Split("rp=" + provider + "," + Join(parts, ','), ',') == ["rp=" + provider] + parts
  {
    SplitFirst("rp=" + provider, ',', Join(parts, ','));
    SplitOfJoin(parts, ',');
  }

  lemma ProviderParses(provider: string)
    requires Clean(provider)
    ensures ParseParts(["rp=" + provider], "", map[]) == Ok((provider, map[]))
  {
    SplitFirst("rp", '=', provider);
    SplitNone(provider, '=');
    assert "rp" + ['='] + provider == "rp=" + provider;
    assert ["rp=" + provider][1..] == [];
  }

  /** The parts print all of the resources and nothing else. */
  ghost predicate Complete(parts: seq<string>, resources: Resources) {
    AllParts(parts, resources) && forall c :: c in resources ==> Part(c, resources[c]) in parts
  }

  lemma SortedPartsComplete(resources: Resources)
    ensures Complete(SortedParts(resources), resources)
  {
    var parts, listed := SortedParts(resources), Parts(resources, SortedSet(resources.Keys));
    forall i | 0 <= i < |parts| ensures IsPart(parts[i], resources) {
      assert parts[i] in multiset(parts);
      PartListed(resources, parts[i]);
    }
    forall c | c in resources ensures Part(c, resources[c]) in parts {
      EachClassPrinted(resources, c);
    }
  }

  lemma PartListed(resources: Resources, p: string)
    requires p in multiset(Parts(resources, SortedSet(resources.Keys)))
    ensures IsPart(p, resources)
  {
    var keys := SortedSet(resources.Keys);
    var k :| 0 <= k < |keys| && Parts(resources, keys)[k] == p;
    assert keys[k] in keys;
  }

  lemma CompleteHasNoComma(parts: seq<string>, resources: Resources, p: string)
    requires Complete(parts, resources) && p in parts && forall c :: c in resources ==> Clean(c) && c != "rp"
    ensures ',' !in p
  {
    var i :| 0 <= i < |parts| && parts[i] == p;
    assert IsPart(parts[i], resources);
    var c :| c in resources && p == Part(c, resources[c]);
    PartParses(c, resources[c], "", map[]);
  }

  lemma LinePartsParse(provider: string, resources: Resources, parts: seq<string>)
    requires Printable(provider, resources) && Complete(parts, resources)
    ensures ParseParts(["rp=" + provider] + parts, "", map[]) == Ok((provider, resources))
  {
    ProviderParses(provider);
    var all := ["rp=" + provider] + parts;
    assert all[0..] == all && all[1..] == parts;
    ParsePartsStep(all, 0, "", map[]);
    PartsParse(parts, resources, provider, map[]);
    AllPresent(parts, resources, ParseParts(parts, provider, map[]).value.1);
  }

  lemma AllPresent(parts: seq<string>, resources: Resources, r: Resources)
    requires Complete(parts, resources) && Within(r, resources)
    requires forall c :: Printed(parts, resources, c) ==> c in r
    ensures r == resources
  {
    forall c | c in resources ensures c in r {
      assert Printed(parts, resources, c);
    }
  }

  lemma HasBoth(provider: string, amounts: string)
    ensures var line := "rp=" + provider + "," + amounts; '=' in line && ',' in line
  {
    var line := "rp=" + provider + "," + amounts;
    assert line[2] == '=' && line[3 + |provider|] == ',';
  }

  lemma LineOfPartsParses(provider: string, resources: Resources, parts: seq<string>)
    requires Printable(provider, resources) && Complete(parts, resources)
    ensures ParseOne("rp=" + provider + "," + Join(parts, ',')) == Ok((provider, resources))
  {
    var c :| c in resources;
    assert Part(c, resources[c]) in parts;
    forall p | p in parts ensures ',' !in p {
      CompleteHasNoComma(parts, resources, p);
    }
    HasBoth(provider, Join(parts, ','));
    SplitOfLine(provider, parts);
    LinePartsParse(provider, resources, parts);
  }

  lemma LineParses(provider: string, resources: Resources)
    requires Printable(provider, resources)
    ensures ParseOne(Line(provider, resources)) == Ok((provider, resources))
  {
    SortedPartsComplete(resources);
    LineOfPartsParses(provider, resources, SortedParts(resources));
  }

  lemma EachClassPrinted(resources: Resources, c: string)
    requires c in resources
    ensures Part(c, resources[c]) in SortStrings(Parts(resources, SortedSet(resources.Keys)))
  {
    var keys := SortedSet(resources.Keys);
    assert c in keys;
    var k :| 0 <= k < |keys| && keys[k] == c;
    assert Parts(resources, keys)[k] in multiset(SortStrings(Parts(resources, keys)));
  }

  // ---------- whatever parses is printable ----------

  lemma SplitIsClean(part: string, i: nat)
    requires ',' !in part && i < |Split(part, '=')|
    ensures Clean(Split(part, '=')[i])
  {
    if ',' in Split(part, '=')[i] {
      SplitComesFrom(part, '=', Split(part, '=')[i], ',');
    }
  }

  lemma {:induction false} ParsedIsClean(parts: seq<string>, provider: string, acc: Resources)
    requires forall p :: p in parts ==> ',' !in p
    requires Clean(provider) && forall c :: c in acc ==> Clean(c) && c != "rp"
    ensures ParseParts(parts, provider, acc).Ok? ==>
              var (p, r) := ParseParts(parts, provider, acc).value;
              Clean(p) && forall c :: c in r ==> Clean(c) && c != "rp"
  {
    if parts == [] {
    } else {
      var kv := Split(parts[0], '=');
      if |kv| == 2 {
        SplitIsClean(parts[0], 0);
        SplitIsClean(parts[0], 1);
        if kv[0] == "rp" {
          ParsedIsClean(parts[1..], kv[1], acc);
        } else if Atoi(kv[1]).Some? {
          ParsedIsClean(parts[1..], provider, acc[kv[0] := Atoi(kv[1]).value]);
        }
      }
    }
  }

  lemma NothingPrinted(provider: string)
    requires Clean(provider)
    ensures ParseOne(Line(provider, map[])).Err?
  {
    var parts := [""];
    var none: Resources := map[];
    assert none.Keys == {} && SortedSet({}) == [];
    assert Amounts(none) == "" == Join(parts, ',');
    SplitOfLine(provider, parts);
    ProviderParses(provider);
    var all := ["rp=" + provider] + parts;
    ParsePartsStep(all, 0, "", map[]);
    assert all[0..] == all && all[1..] == parts;
    assert Split("", '=') == [""];
  }

  lemma ParsedIsPrintable(provider: string, resources: Resources)
    requires ParseOne(Line(provider, resources)) == Ok((provider, resources))
    ensures Printable(provider, resources)
  {
    ParsedIsClean(Split(Line(provider, resources), ','), "", map[]);
    if resources == map[] {
      NothingPrinted(provider);
    }
  }

  /** The printed allocation of one provider parses back to it exactly when the format can carry its names. */
  lemma RoundTripIff(provider: string, resources: Resources)
    ensures ParseOne(Line(provider, resources)) == Ok((provider, resources)) <==> Printable(provider, resources)
  {
    if Printable(provider, resources) {
      LineParses(provider, resources);
    }
    if ParseOne(Line(provider, resources)) == Ok((provider, resources)) {
      ParsedIsPrintable(provider, resources);
    }
  }

  // ---------- all providers at once ----------

  ghost predicate Listed(allocations: Allocations, providers: seq<string>) {
    forall p :: p in providers ==> p in allocations
  }

  function Lines(allocations: Allocations, providers: seq<string>): seq<string>
    requires Listed(allocations, providers)
  {
    if providers == [] then []
    else
      var front, last := providers[..|providers| - 1], providers[|providers| - 1];
      Lines(allocations, front) + [Line(last, allocations[last])]
  }

  ghost function Selected(allocations: Allocations, providers: seq<string>): Allocations
    requires Listed(allocations, providers)
  {
    map p | p in providers :: allocations[p]
  }

  lemma ParseAllSnoc(values: seq<string>, value: string, allocations: Allocations)
    requires ParseAll(values) == Ok(allocations)
    ensures ParseAll(values + [value]) == MergeParsed(allocations, ParseOne(value))
  {
    assert (values + [value])[..|values|] == values;
  }

  lemma MergeNew(allocations: Allocations, providers: seq<string>, front: seq<string>, last: string)
    requires Listed(allocations, providers) && providers == front + [last] && last !in front
    ensures Merge(Selected(allocations, front), last, allocations[last]) == Ok(Selected(allocations, providers))
  {
    var before := Selected(allocations, front);
    assert map[] + allocations[last] == allocations[last];
    assert before[last := allocations[last]] == Selected(allocations, providers);
  }

  lemma LastIsNew(providers: seq<string>)
    requires providers != [] && NoDuplicates(providers)
    ensures var n := |providers| - 1;
            providers == providers[..n] + [providers[n]] && providers[n] !in providers[..n] && NoDuplicates(providers[..n])
  {
  }

  /** Any printable providers, each printed once, are restored together. */
  lemma {:induction false} RoundTripAll(allocations: Allocations, providers: seq<string>)
    requires NoDuplicates(providers) && Listed(allocations, providers)
    requires forall p :: p in providers ==> Printable(p, allocations[p])
    ensures ParseAll(Lines(allocations, providers)) == Ok(Selected(allocations, providers))
  {
    if providers == [] {
    } else {
      var front, last := providers[..|providers| - 1], providers[|providers| - 1];
      LastIsNew(providers);
      RoundTripAll(allocations, front);
      ParseAllSnoc(Lines(allocations, front), Line(last, allocations[last]), Selected(allocations, front));
      LineParses(last, allocations[last]);
      MergeNew(allocations, providers, front, last);
    }
  }

  lemma SelectedIsAll(allocations: Allocations, providers: seq<string>)
    requires forall p :: p in providers <==> p in allocations
    ensures Selected(allocations, providers) == allocations
  {
  }

  // ---------- whatever is restored was printable ----------

  lemma ParseOneClean(value: string, g: (string, Resources))
    requires ParseOne(value) == Ok(g)
    ensures g.0 != "" && Clean(g.0) && forall c :: c in g.1 ==> Clean(c) && c != "rp"
  {
    ParsedIsClean(Split(value, ','), "", map[]);
  }

  lemma GivenIsClean(values: seq<string>, g: (string, Resources))
    requires Parsed(values).Ok? && g in AsSet(Parsed(values).value)
    ensures g.0 != "" && Clean(g.0) && forall c :: c in g.1 ==> Clean(c) && c != "rp"
  {
    ParsedMembers(values);
    assert ParsesTo(values, g);
    var value :| value in values && ParseOne(value) == Ok(g);
    ParseOneClean(value, g);
  }

  lemma ProviderIsClean(values: seq<string>, allocations: Allocations, p: string)
    requires ParseAll(values) == Ok(allocations) && p in allocations
    ensures p != "" && Clean(p)
  {
    ParseAllIsUnion(values);
    var given := AsSet(Parsed(values).value);
    assert Names(given, p);
    var g :| g in given && g.0 == p;
    GivenIsClean(values, g);
  }

  lemma ClassIsClean(values: seq<string>, allocations: Allocations, p: string, c: string)
    requires ParseAll(values) == Ok(allocations) && p in allocations && c in allocations[p]
    ensures Clean(c) && c != "rp"
  {
    ParseAllIsUnion(values);
    var given := AsSet(Parsed(values).value);
    assert Gives(given, p, c, allocations[p][c]);
    var g :| g in given && g.0 == p && c in g.1 && g.1[c] == allocations[p][c];
    GivenIsClean(values, g);
  }

  lemma {:induction false} LineListed(allocations: Allocations, providers: seq<string>, p: string)
    requires Listed(allocations, providers) && p in providers
    ensures Line(p, allocations[p]) in Lines(allocations, providers)
  {
    var front, last := providers[..|providers| - 1], providers[|providers| - 1];
    if p != last {
      assert providers == front + [last];
      LineListed(allocations, front, p);
    }
  }

  lemma RestoredIsPrintable(allocations: Allocations, providers: seq<string>, p: string)
    requires Listed(allocations, providers) && ParseAll(Lines(allocations, providers)) == Ok(allocations) && p in providers
    ensures Printable(p, allocations[p])
  {
    var lines := Lines(allocations, providers);
    ProviderIsClean(lines, allocations, p);
    forall c | c in allocations[p] ensures Clean(c) && c != "rp" {
      ClassIsClean(lines, allocations, p, c);
    }
    if allocations[p] == map[] {
      NothingPrinted(p);
      LineListed(allocations, providers, p);
      ParseAllIsUnion(lines);
      ParsedMembers(lines);
    }
  }

  /**
   * Printing every provider once, in any order, and parsing the strings together restores the allocations exactly when
   * the format can carry all of their names.
   */
  lemma {:induction false} RoundTripRestores(allocations: Allocations, providers: seq<string>)
    requires NoDuplicates(providers) && forall p :: p in providers <==> p in allocations
    ensures ParseAll(Lines(allocations, providers)) == Ok(allocations)
            <==> forall p :: p in allocations ==> Printable(p, allocations[p])
  {
    if forall p :: p in allocations ==> Printable(p, allocations[p]) {
      RoundTripAll(allocations, providers);
      SelectedIsAll(allocations, providers);
    }
    if ParseAll(Lines(allocations, providers)) == Ok(allocations) {
      forall p | p in allocations ensures Printable(p, allocations[p]) {
        RestoredIsPrintable(allocations, providers, p);
      }
    }
  }

  /** A class called "rp" is read as the provider instead. */
  lemma ClassNamedRpLost(provider: string, resources: Resources)
    requires "rp" in resources
    ensures ParseOne(Line(provider, resources)) != Ok((provider, resources))
  {
    RoundTripIff(provider, resources);
  }

  lemma ClassNamedRpExample()
    ensures ParseOne(Line("p", map["rp" := 1])) != Ok(("p", map["rp" := 1]))
  {
    ClassNamedRpLost("p", map["rp" := 1]);
  }
}
