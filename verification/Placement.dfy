/** Placement allocations: the `rp=<provider>,<class>=<amount>,...` strings and the maps they denote. */
module Placement {
  import opened Text
  import opened Options
  import opened Decimal

  type Resources = map<string, Int64>
  type Allocations = map<string, Resources>

  datatype Error = BadFormat | BadInteger(text: string) | NoProvider | Conflict(provider: string)
  datatype Result<T> = Ok(value: T) | Err(error: Error)

  // ---------- one allocation string ----------

  function ParseParts(parts: seq<string>, provider: string, resources: Resources): Result<(string, Resources)> {
    if parts == [] then Ok((provider, resources))
    else
      var kv := Split(parts[0], '=');
      if |kv| != 2 then Err(BadFormat)
      else if kv[0] == "rp" then ParseParts(parts[1..], kv[1], resources)
      else
        match Atoi(kv[1])
        case None => Err(BadInteger(kv[1]))
        case Some(amount) => ParseParts(parts[1..], provider, resources[kv[0] := amount])
  }

  function ParseOne(value: string): Result<(string, Resources)> {
    if '=' !in value || ',' !in value then Err(BadFormat)
    else
      match ParseParts(Split(value, ','), "", map[])
      case Err(e) => Err(e)
      case Ok(pair) => if pair.0 == "" then Err(NoProvider) else Ok(pair)
  }

  // ---------- many allocation strings ----------

  function ResourcesOf(allocations: Allocations, provider: string): Resources {
    if provider in allocations then allocations[provider] else map[]
  }

  predicate Conflicting(current: Resources, resources: Resources) {
    exists c :: c in resources && c in current && current[c] != resources[c]
  }

  function Merge(allocations: Allocations, provider: string, resources: Resources): Result<Allocations> {
    var current := ResourcesOf(allocations, provider);
    if Conflicting(current, resources) then Err(Conflict(provider))
    else Ok(allocations[provider := current + resources])
  }

  function MergeParsed(allocations: Allocations, parsed: Result<(string, Resources)>): Result<Allocations> {
    match parsed
    case Err(e) => Err(e)
    case Ok((provider, resources)) => Merge(allocations, provider, resources)
  }

  function ParseAll(values: seq<string>): Result<Allocations> {
    if values == [] then Ok(map[])
    else
      match ParseAll(values[..|values| - 1])
      case Err(e) => Err(e)
      case Ok(allocations) => MergeParsed(allocations, ParseOne(values[|values| - 1]))
  }

  // ---------- the program ----------

  method ParsePart(part: string, provider: string, resources: Resources) returns (r: Result<(string, Resources)>)
    ensures r == ParseParts([part], provider, resources)
  {
    var kv := Split(part, '=');
    if |kv| != 2 {
      return Err(BadFormat);
    }
    if kv[0] == "rp" {
      return Ok((kv[1], resources));
    }
    var amount := Atoi(kv[1]);
    if amount == None {
      return Err(BadInteger(kv[1]));
    }
    r := Ok((provider, resources[kv[0] := amount.value]));
  }

  lemma ParsePartsStep(parts: seq<string>, i: nat, provider: string, resources: Resources)
    requires i < |parts|
    ensures ParseParts(parts[i..], provider, resources) ==
            match ParseParts([parts[i]], provider, resources)
            case Err(e) => Err(e)
            case Ok((p, r)) => ParseParts(parts[i + 1..], p, r)
  {
    assert parts[i..][1..] == parts[i + 1..];
    assert [parts[i]][1..] == [];
  }

  method ParseValue(value: string) returns (r: Result<(string, Resources)>)
    ensures r == ParseOne(value)
  {
    if '=' !in value || ',' !in value {
      return Err(BadFormat);
    }
    var parts := Split(value, ',');
    var provider := "";
    var resources: Resources := map[];
    assert parts[0..] == parts;
    for i := 0 to |parts|
      invariant ParseParts(parts[i..], provider, resources) == ParseParts(parts, "", map[])
    {
      ParsePartsStep(parts, i, provider, resources);
      var step := ParsePart(parts[i], provider, resources);
      if step.Err? {
        return Err(step.error);
      }
      provider, resources := step.value.0, step.value.1;
    }
    if provider == "" {
      return Err(NoProvider);
    }
    r := Ok((provider, resources));
  }

  /** Copies the resources over in whatever order the map is walked, unless an amount disagrees. */
  method MergeResources(current: Resources, resources: Resources) returns (merged: Resources, conflict: bool)
    ensures conflict <==> Conflicting(current, resources)
    ensures !conflict ==> merged == current + resources
  {
    merged := current;
    var rest := resources.Keys;
    while rest != {}
      invariant rest <= resources.Keys
      invariant merged.Keys == current.Keys + (resources.Keys - rest)
      invariant forall c :: c in resources.Keys - rest ==> merged[c] == resources[c]
      invariant forall c :: c in current && (c !in resources || c in rest) ==> merged[c] == current[c]
      invariant forall c :: c in resources.Keys - rest && c in current ==> current[c] == resources[c]
      decreases |rest|
    {
      var resourceClass :| resourceClass in rest;
      var amount := resources[resourceClass];
      if resourceClass in merged && merged[resourceClass] != amount {
        return merged, true;
      }
      merged := merged[resourceClass := amount];
      rest := rest - {resourceClass};
    }
    conflict := false;
  }

  method MergeValue(allocations: Allocations, value: string) returns (r: Result<Allocations>)
    ensures r == MergeParsed(allocations, ParseOne(value))
  {
    var parsed := ParseValue(value);
    if parsed.Err? {
      return Err(parsed.error);
    }
    var (provider, resources) := parsed.value;
    var current := if provider in allocations then allocations[provider] else map[];
    var merged, conflict := MergeResources(current, resources);
    r := if conflict then Err(Conflict(provider)) else Ok(allocations[provider := merged]);
  }

  lemma ParseAllNext(values: seq<string>, i: nat)
    requires i < |values| && ParseAll(values[..i]).Ok?
    ensures ParseAll(values[..i + 1]) == MergeParsed(ParseAll(values[..i]).value, ParseOne(values[i]))
  {
    assert values[..i + 1][..i] == values[..i];
  }

  method ParsePlacementAllocations(values: seq<string>) returns (r: Result<Allocations>)
    ensures r == ParseAll(values)
  {
    var allocations: Allocations := map[];
    for i := 0 to |values|
      invariant ParseAll(values[..i]) == Ok(allocations)
    {
      ParseAllNext(values, i);
      var merged := MergeValue(allocations, values[i]);
      if merged.Err? {
        ErrorsPersist(values, i + 1);
        return merged;
      }
      allocations := merged.value;
    }
    assert values[..|values|] == values;
    r := Ok(allocations);
  }

  lemma {:induction false} ErrorsPersist(values: seq<string>, i: nat)
    requires i <= |values| && ParseAll(values[..i]).Err?
    ensures ParseAll(values) == ParseAll(values[..i])
    decreases |values|
  {
    if i < |values| {
      var front := values[..|values| - 1];
      assert front[..i] == values[..i];
      ErrorsPersist(front, i);
    } else {
      assert values[..i] == values;
    }
  }

  /** The `k`-th string is the first that cannot be read, or that gives other amounts than those before it. */
  ghost predicate StopsAt(values: seq<string>, k: nat, e: Error) {
    && k < |values| && ParseAll(values[..k]).Ok?
    && match ParseOne(values[k])
       case Err(wrong) => e == wrong
       case Ok((p, r)) => e == Conflict(p) && exists c :: c in r && Differs(ParseAll(values[..k]).value, p, c, r[c])
  }

  ghost predicate Differs(allocations: Allocations, p: string, c: string, amount: Int64) {
    p in allocations && c in allocations[p] && allocations[p][c] != amount
  }

  lemma MergeFails(allocations: Allocations, p: string, r: Resources)
    ensures match Merge(allocations, p, r)
            case Err(e) => e == Conflict(p) && exists c :: c in r && Differs(allocations, p, c, r[c])
            case Ok(_) => forall c :: c in r ==> !Differs(allocations, p, c, r[c])
  {
    var current := ResourcesOf(allocations, p);
    if Conflicting(current, r) {
      var c :| c in r && c in current && current[c] != r[c];
      assert Differs(allocations, p, c, r[c]);
    } else {
      forall c | c in r ensures !Differs(allocations, p, c, r[c]) {
        assert c in current ==> current[c] == r[c];
      }
    }
  }

  lemma StopsHere(values: seq<string>, k: nat, e: Error)
    requires k < |values| && ParseAll(values[..k]).Ok?
    ensures StopsAt(values, k, e) <==> ParseAll(values[..k + 1]) == Err(e)
  {
    ParseAllNext(values, k);
    if ParseOne(values[k]).Ok? {
      MergeFails(ParseAll(values[..k]).value, ParseOne(values[k]).value.0, ParseOne(values[k]).value.1);
    }
  }

  lemma {:induction false} FirstStop(values: seq<string>, n: nat) returns (k: nat)
    requires n <= |values| && ParseAll(values[..n]).Err?
    ensures k < n && ParseAll(values[..k]).Ok? && ParseAll(values[..k + 1]).Err?
  {
    assert n != 0;
    if ParseAll(values[..n - 1]).Ok? {
      k := n - 1;
    } else {
      k := FirstStop(values, n - 1);
    }
  }

  /** Which error is given: that of the first string that cannot be taken in, naming its provider if it disagrees. */
  lemma {:induction false} FirstErrorWins(values: seq<string>, e: Error)
    ensures ParseAll(values) == Err(e) <==> exists k: nat :: StopsAt(values, k, e)
  {
    if k: nat :| StopsAt(values, k, e) {
      StopsHere(values, k, e);
      ErrorsPersist(values, k + 1);
    }
    if ParseAll(values) == Err(e) {
      assert values[..|values|] == values;
      var k := FirstStop(values, |values|);
      ErrorsPersist(values, k + 1);
      StopsHere(values, k, e);
    }
  }

  // ---------- what one string denotes ----------

  /** `part` is `key=value`, with no other equals sign. */
  ghost predicate IsPart(part: string, key: string, value: string) {
    part == key + ['='] + value && '=' !in key && '=' !in value
  }

  lemma PartSplits(part: string, key: string, value: string)
    ensures IsPart(part, key, value) <==> Split(part, '=') == [key, value]
  {
    if IsPart(part, key, value) {
      SplitFirst(key, '=', value);
      SplitNone(value, '=');
    }
    if Split(part, '=') == [key, value] {
      JoinOfSplit(part, '=');
      assert [key, value][1..] == [value] && Join([value], '=') == value;
      assert Split(part, '=')[0] == key && Split(part, '=')[1] == value;
    }
  }

  /** What one part is: the provider, an amount, or what is wrong with it. */
  datatype Reading = Provider(name: string) | Amount(resourceClass: string, amount: Int64) | Wrong(error: Error)

  ghost predicate Reads(part: string, reading: Reading) {
    match reading
    case Provider(name) => IsPart(part, "rp", name)
    case Amount(c, amount) => c != "rp" && exists text :: IsPart(part, c, text) && Atoi(text) == Some(amount)
    case Wrong(BadFormat) => forall key, value :: !IsPart(part, key, value)
    case Wrong(BadInteger(text)) => Atoi(text) == None && exists key :: key != "rp" && IsPart(part, key, text)
    case Wrong(_) => false
  }

  /** Taking one part in. */
  function TakeIn(provider: string, resources: Resources, reading: Reading): Result<(string, Resources)> {
    match reading
    case Provider(name) => Ok((name, resources))
    case Amount(c, amount) => Ok((provider, resources[c := amount]))
    case Wrong(e) => Err(e)
  }

  /** Every part has exactly one reading, and has its effect. */
  lemma PartReads(part: string, provider: string, resources: Resources) returns (reading: Reading)
    ensures Reads(part, reading) && forall other :: Reads(part, other) ==> other == reading
    ensures ParseParts([part], provider, resources) == TakeIn(provider, resources, reading)
  {
    var kv := Split(part, '=');
    assert [part][1..] == [];
    forall key, value ensures IsPart(part, key, value) <==> kv == [key, value] {
      PartSplits(part, key, value);
    }
    if |kv| != 2 {
      reading := Wrong(BadFormat);
    } else {
      assert kv == [kv[0], kv[1]];
      assert IsPart(part, kv[0], kv[1]);
      reading := if kv[0] == "rp" then Provider(kv[1])
                 else if Atoi(kv[1]) == None then Wrong(BadInteger(kv[1])) else Amount(kv[0], Atoi(kv[1]).value);
    }
  }

  ghost predicate AllRead(parts: seq<string>, readings: seq<Reading>) {
    |readings| == |parts| && forall k :: 0 <= k < |parts| ==> Reads(parts[k], readings[k])
  }

  ghost predicate FirstWrong(readings: seq<Reading>, k: nat, error: Error) {
    k < |readings| && readings[k] == Wrong(error) && forall j :: 0 <= j < k ==> !readings[j].Wrong?
  }

  ghost predicate GivesAmount(reading: Reading, c: string) {
    reading.Amount? && reading.resourceClass == c
  }

  /** The last provider that is named counts, wherever it stands. */
  ghost predicate ProviderIs(readings: seq<Reading>, before: string, p: string) {
    && ((forall k :: 0 <= k < |readings| ==> !readings[k].Provider?) ==> p == before)
    && forall k :: 0 <= k < |readings| && readings[k].Provider? && (forall j :: k < j < |readings| ==> !readings[j].Provider?)
         ==> p == readings[k].name
  }

  ghost predicate NoAmount(readings: seq<Reading>, c: string) {
    forall k :: 0 <= k < |readings| ==> !GivesAmount(readings[k], c)
  }

  ghost predicate LastAmount(readings: seq<Reading>, c: string, k: nat) {
    k < |readings| && GivesAmount(readings[k], c) && forall j :: k < j < |readings| ==> !GivesAmount(readings[j], c)
  }

  /** The last amount that is given for class `c` counts. */
  ghost predicate AmountIs(readings: seq<Reading>, before: Resources, r: Resources, c: string) {
    && (NoAmount(readings, c) ==> (c in r <==> c in before) && (c in r ==> r[c] == before[c]))
    && (forall k: nat :: LastAmount(readings, c, k) ==> c in r && r[c] == readings[k].amount)
  }

  lemma ProviderFirst(x: Reading, readings: seq<Reading>, before: string, p: string)
    requires ProviderIs(readings, if x.Provider? then x.name else before, p)
    ensures ProviderIs([x] + readings, before, p)
  {
    var all := [x] + readings;
    assert all[0] == x && forall k :: 0 <= k < |readings| ==> all[k + 1] == readings[k];
    forall k | 0 <= k < |all| && all[k].Provider? && forall j :: k < j < |all| ==> !all[j].Provider?
      ensures p == all[k].name
    {
      if k > 0 {
        assert all[k] == readings[k - 1];
        assert forall j :: k - 1 < j < |readings| ==> readings[j] == all[j + 1];
      } else {
        assert forall j :: 0 <= j < |readings| ==> readings[j] == all[j + 1];
      }
    }
    if forall k :: 0 <= k < |all| ==> !all[k].Provider? {
      assert forall j :: 0 <= j < |readings| ==> readings[j] == all[j + 1];
    }
  }

  lemma NoAmountFirst(x: Reading, readings: seq<Reading>, c: string)
    ensures NoAmount([x] + readings, c) <==> !GivesAmount(x, c) && NoAmount(readings, c)
  {
    var all := [x] + readings;
    assert all[0] == x && forall j :: 0 <= j < |readings| ==> readings[j] == all[j + 1];
  }

  lemma LastAmountFirst(x: Reading, readings: seq<Reading>, c: string, k: nat)
    requires LastAmount([x] + readings, c, k)
    ensures ([x] + readings)[k] == if k == 0 then x else readings[k - 1]
    ensures if k == 0 then GivesAmount(x, c) && NoAmount(readings, c) else LastAmount(readings, c, k - 1)
  {
    var all := [x] + readings;
    assert forall j :: 0 <= j < |readings| ==> readings[j] == all[j + 1];
  }

  lemma AmountFirst(x: Reading, readings: seq<Reading>, before: Resources, r: Resources, c: string)
    requires AmountIs(readings, if x.Amount? then before[x.resourceClass := x.amount] else before, r, c)
    ensures AmountIs([x] + readings, before, r, c)
  {
    NoAmountFirst(x, readings, c);
    forall k: nat | LastAmount([x] + readings, c, k) ensures c in r && r[c] == ([x] + readings)[k].amount {
      LastAmountFirst(x, readings, c, k);
    }
  }

  /** What a list of parts comes to: the first wrong one stops it, and otherwise the last mention of anything counts. */
  ghost predicate PartsMean(readings: seq<Reading>, provider: string, resources: Resources, result: Result<(string, Resources)>) {
    match result
    case Err(e) => exists k: nat :: FirstWrong(readings, k, e)
    case Ok((p, r)) =>
      && (forall k :: 0 <= k < |readings| ==> !readings[k].Wrong?)
      && ProviderIs(readings, provider, p) && forall c :: AmountIs(readings, resources, r, c)
  }

  lemma PartsMeanFirst(x: Reading, readings: seq<Reading>, provider: string, resources: Resources, result: Result<(string, Resources)>)
    requires TakeIn(provider, resources, x).Ok?
    requires var (p, r) := TakeIn(provider, resources, x).value; PartsMean(readings, p, r, result)
    ensures PartsMean([x] + readings, provider, resources, result)
  {
    var all := [x] + readings;
    match result {
      case Err(e) =>
        var k: nat :| FirstWrong(readings, k, e);
        assert FirstWrong(all, k + 1, e);
      case Ok((p, r)) =>
        ProviderFirst(x, readings, provider, p);
        forall c ensures AmountIs(all, resources, r, c) {
          AmountFirst(x, readings, resources, r, c);
        }
    }
  }

  lemma WrongFirst(error: Error, readings: seq<Reading>, provider: string, resources: Resources)
    ensures PartsMean([Wrong(error)] + readings, provider, resources, Err(error))
  {
    assert FirstWrong([Wrong(error)] + readings, 0, error);
  }

  /** The reading of the first part, and what is left to parse after it. */
  lemma FirstPartReads(parts: seq<string>, provider: string, resources: Resources) returns (x: Reading)
    requires parts != []
    ensures Reads(parts[0], x)
    ensures ParseParts(parts, provider, resources) ==
            match TakeIn(provider, resources, x)
            case Err(e) => Err(e)
            case Ok((p, r)) => ParseParts(parts[1..], p, r)
  {
    x := PartReads(parts[0], provider, resources);
    ParsePartsStep(parts, 0, provider, resources);
    assert parts[0..] == parts;
  }

  lemma AllReadFirst(parts: seq<string>, x: Reading, readings: seq<Reading>)
    requires parts != [] && Reads(parts[0], x) && AllRead(parts[1..], readings)
    ensures AllRead(parts, [x] + readings)
  {
    forall k | 0 <= k < |parts| ensures Reads(parts[k], ([x] + readings)[k]) {
      assert k > 0 ==> parts[k] == parts[1..][k - 1];
    }
  }

  /** `readings` are those of the parts, and what they come to is what parsing them does. */
  ghost predicate ReadAs(parts: seq<string>, provider: string, resources: Resources, readings: seq<Reading>) {
    AllRead(parts, readings) && PartsMean(readings, provider, resources, ParseParts(parts, provider, resources))
  }

  lemma NoPartsRead(provider: string, resources: Resources)
    ensures ReadAs([], provider, resources, [])
  {
  }

  lemma FirstTakenIn(parts: seq<string>, provider: string, resources: Resources, x: Reading, p: string, r: Resources, rest: seq<Reading>)
    requires parts != [] && Reads(parts[0], x) && TakeIn(provider, resources, x) == Ok((p, r))
    requires ParseParts(parts, provider, resources) == ParseParts(parts[1..], p, r) && ReadAs(parts[1..], p, r, rest)
    ensures ReadAs(parts, provider, resources, [x] + rest)
  {
    AllReadFirst(parts, x, rest);
    PartsMeanFirst(x, rest, provider, resources, ParseParts(parts[1..], p, r));
  }

  lemma FirstRefused(parts: seq<string>, provider: string, resources: Resources, e: Error, rest: seq<Reading>)
    requires parts != [] && Reads(parts[0], Wrong(e)) && AllRead(parts[1..], rest)
    requires ParseParts(parts, provider, resources) == Err(e)
    ensures ReadAs(parts, provider, resources, [Wrong(e)] + rest)
  {
    AllReadFirst(parts, Wrong(e), rest);
    WrongFirst(e, rest, provider, resources);
  }

  /** The parts of one string, in order. */
  lemma {:induction false} PartsReadAs(parts: seq<string>, provider: string, resources: Resources) returns (readings: seq<Reading>)
    ensures ReadAs(parts, provider, resources, readings)
    decreases |parts|
  {
    if parts == [] {
      readings := [];
      NoPartsRead(provider, resources);
      return;
    }
    var x := FirstPartReads(parts, provider, resources);
    match TakeIn(provider, resources, x) {
      case Ok((p, r)) =>
        var rest := PartsReadAs(parts[1..], p, r);
        readings := [x] + rest;
        FirstTakenIn(parts, provider, resources, x, p, r, rest);
      case Err(e) =>
        var rest := PartsReadAs(parts[1..], provider, resources);
        readings := [x] + rest;
        FirstRefused(parts, provider, resources, e, rest);
    }
  }

  /**
   * What one string denotes.  It must hold an equals sign and a comma; the first part that cannot be read gives the error;
   * otherwise the last named provider, which may stand anywhere but must be named, gets the last amount of each class.
   */
  lemma StringReads(value: string) returns (readings: seq<Reading>, p: string, r: Resources)
    ensures '=' !in value || ',' !in value ==> ParseOne(value) == Err(BadFormat)
    ensures '=' in value && ',' in value ==>
              && AllRead(Split(value, ','), readings)
              && (if exists k: nat, e :: FirstWrong(readings, k, e) then ParseOne(value).Err? && exists k: nat :: FirstWrong(readings, k, ParseOne(value).error)
                  else ProviderIs(readings, "", p) && (forall c :: AmountIs(readings, map[], r, c))
                       && ParseOne(value) == if p == "" then Err(NoProvider) else Ok((p, r)))
  {
    readings := PartsReadAs(Split(value, ','), "", map[]);
    p, r := "", map[];
    var parsed := ParseParts(Split(value, ','), "", map[]);
    if parsed.Ok? {
      p, r := parsed.value.0, parsed.value.1;
    }
  }

  // ---------- what the strings denote together ----------

  /** Some string gives provider `p`. */
  ghost predicate Names(given: set<(string, Resources)>, p: string) {
    exists g :: g in given && g.0 == p
  }

  /** Some string gives provider `p` the amount `a` of class `c`. */
  ghost predicate Gives(given: set<(string, Resources)>, p: string, c: string, a: Int64) {
    exists g :: g in given && g.0 == p && c in g.1 && g.1[c] == a
  }

  /** No two strings give one provider different amounts of one class. */
  ghost predicate Consistent(given: set<(string, Resources)>) {
    forall g, h, c :: g in given && h in given && g.0 == h.0 && c in g.1 && c in h.1 ==> g.1[c] == h.1[c]
  }

  /** Everything given, and nothing else. */
  ghost predicate IsUnion(allocations: Allocations, given: set<(string, Resources)>) {
    Includes(allocations, given) && IncludedIn(allocations, given)
  }

  ghost predicate Includes(allocations: Allocations, given: set<(string, Resources)>) {
    && (forall g :: g in given ==> g.0 in allocations)
    && (forall g, c :: g in given && c in g.1 ==> c in allocations[g.0] && allocations[g.0][c] == g.1[c])
  }

  ghost predicate IncludedIn(allocations: Allocations, given: set<(string, Resources)>) {
    && (forall p :: p in allocations ==> Names(given, p))
    && (forall p, c :: p in allocations && c in allocations[p] ==> Gives(given, p, c, allocations[p][c]))
  }

  lemma ConflictIsInconsistent(allocations: Allocations, given: set<(string, Resources)>, p: string, resources: Resources)
    requires IsUnion(allocations, given) && Conflicting(ResourcesOf(allocations, p), resources)
    ensures !Consistent(given + {(p, resources)})
  {
    var current := ResourcesOf(allocations, p);
    var c :| c in resources && c in current && current[c] != resources[c];
    assert Gives(given, p, c, current[c]);
    var g :| g in given && g.0 == p && c in g.1 && g.1[c] == current[c];
    assert (p, resources).1[c] != g.1[c];
    assert g in given + {(p, resources)} && (p, resources) in given + {(p, resources)};
  }

  lemma UnionAdd(allocations: Allocations, given: set<(string, Resources)>, p: string, resources: Resources)
    requires IsUnion(allocations, given) && !Conflicting(ResourcesOf(allocations, p), resources)
    ensures IsUnion(allocations[p := ResourcesOf(allocations, p) + resources], given + {(p, resources)})
  {
    var merged := allocations[p := ResourcesOf(allocations, p) + resources];
    IncludesMore(allocations, given, merged, (p, resources));
    IncludedInMore(allocations, given, merged, (p, resources));
  }

  lemma IncludesMore(allocations: Allocations, given: set<(string, Resources)>, merged: Allocations, last: (string, Resources))
    requires Includes(allocations, given) && !Conflicting(ResourcesOf(allocations, last.0), last.1)
    requires merged == allocations[last.0 := ResourcesOf(allocations, last.0) + last.1]
    ensures Includes(merged, given + {last})
  {
    forall g, c | g in given + {last} && c in g.1 ensures g.0 in merged && c in merged[g.0] && merged[g.0][c] == g.1[c] {
      assert g != last ==> g in given;
    }
  }

  lemma IncludedInMore(allocations: Allocations, given: set<(string, Resources)>, merged: Allocations, last: (string, Resources))
    requires IncludedIn(allocations, given)
    requires merged == allocations[last.0 := ResourcesOf(allocations, last.0) + last.1]
    ensures IncludedIn(merged, given + {last})
  {
    forall q | q in merged ensures Names(given + {last}, q) {
      NamesMore(given, last, q);
    }
    forall q, c | q in merged && c in merged[q] ensures Gives(given + {last}, q, c, merged[q][c]) {
      GivesMore(given, last, q, c, merged[q][c]);
    }
  }

  lemma NamesMore(given: set<(string, Resources)>, last: (string, Resources), q: string)
    ensures Names(given, q) || q == last.0 ==> Names(given + {last}, q)
  {
    if q == last.0 {
      assert last in given + {last};
    }
  }

  lemma GivesMore(given: set<(string, Resources)>, last: (string, Resources), q: string, c: string, a: Int64)
    ensures Gives(given, q, c, a) || (q == last.0 && c in last.1 && last.1[c] == a) ==> Gives(given + {last}, q, c, a)
  {
    if q == last.0 && c in last.1 && last.1[c] == a {
      assert last in given + {last};
    }
  }

  lemma UnionIsConsistent(allocations: Allocations, given: set<(string, Resources)>)
    requires IsUnion(allocations, given)
    ensures Consistent(given)
  {
  }

  lemma UnionUnique(a: Allocations, b: Allocations, given: set<(string, Resources)>)
    requires IsUnion(a, given) && IsUnion(b, given)
    ensures a == b
  {
    UnionWithin(a, b, given);
    UnionWithin(b, a, given);
    assert a.Keys == b.Keys;
    forall p | p in a ensures a[p] == b[p] {
      assert a[p].Keys == b[p].Keys;
    }
  }

  lemma UnionWithin(a: Allocations, b: Allocations, given: set<(string, Resources)>)
    requires IsUnion(a, given) && IsUnion(b, given)
    ensures forall p :: p in a ==> p in b
    ensures forall p, c :: p in a && c in a[p] ==> c in b[p] && b[p][c] == a[p][c]
  {
    forall p | p in a ensures p in b {
      assert Names(given, p);
    }
    forall p, c | p in a && c in a[p] ensures c in b[p] && b[p][c] == a[p][c] {
      assert Gives(given, p, c, a[p][c]);
    }
  }

  /** All strings parsed on their own, before anything is merged. */
  function Parsed(values: seq<string>): Result<seq<(string, Resources)>> {
    if values == [] then Ok([])
    else
      match Parsed(values[..|values| - 1])
      case Err(e) => Err(e)
      case Ok(given) =>
        match ParseOne(values[|values| - 1])
        case Err(e) => Err(e)
        case Ok(g) => Ok(given + [g])
  }

  function MergeAll(given: seq<(string, Resources)>): Result<Allocations> {
    if given == [] then Ok(map[])
    else
      match MergeAll(given[..|given| - 1])
      case Err(e) => Err(e)
      case Ok(allocations) => Merge(allocations, given[|given| - 1].0, given[|given| - 1].1)
  }

  lemma {:induction false} ParseThenMerge(values: seq<string>)
    ensures ParseAll(values).Ok? <==> Parsed(values).Ok? && MergeAll(Parsed(values).value).Ok?
    ensures ParseAll(values).Ok? ==> ParseAll(values) == MergeAll(Parsed(values).value)
  {
    if values == [] {
    } else {
      ParseThenMerge(values[..|values| - 1]);
      if Parsed(values).Ok? {
        var given := Parsed(values).value;
        assert given[..|given| - 1] == Parsed(values[..|values| - 1]).value;
      }
    }
  }

  ghost function AsSet(given: seq<(string, Resources)>): set<(string, Resources)> {
    set g | g in given
  }

  lemma MergeStep(allocations: Allocations, given: set<(string, Resources)>, last: (string, Resources))
    requires IsUnion(allocations, given)
    ensures Merge(allocations, last.0, last.1).Ok? <==> Consistent(given + {last})
    ensures Merge(allocations, last.0, last.1).Ok? ==> IsUnion(Merge(allocations, last.0, last.1).value, given + {last})
  {
    if Conflicting(ResourcesOf(allocations, last.0), last.1) {
      ConflictIsInconsistent(allocations, given, last.0, last.1);
    } else {
      UnionAdd(allocations, given, last.0, last.1);
      UnionIsConsistent(Merge(allocations, last.0, last.1).value, given + {last});
    }
  }

  lemma ConsistentPart(given: set<(string, Resources)>, more: set<(string, Resources)>)
    requires given <= more && Consistent(more)
    ensures Consistent(given)
  {
  }

  lemma {:induction false} MergeIsUnion(given: seq<(string, Resources)>)
    ensures MergeAll(given).Ok? <==> Consistent(AsSet(given))
    ensures MergeAll(given).Ok? ==> IsUnion(MergeAll(given).value, AsSet(given))
  {
    if given == [] {
      assert IsUnion(map[], {});
    } else {
      var front, last := given[..|given| - 1], given[|given| - 1];
      assert given == front + [last];
      assert AsSet(given) == AsSet(front) + {last};
      MergeIsUnion(front);
      if MergeAll(front).Ok? {
        MergeStep(MergeAll(front).value, AsSet(front), last);
      } else if Consistent(AsSet(given)) {
        ConsistentPart(AsSet(front), AsSet(given));
      }
    }
  }

  /**
   * Parsing succeeds exactly when every string is well formed and no two of them give one provider different amounts
   * of one class, and then the result is the union of what they give.
   */
  lemma {:induction false} ParseAllIsUnion(values: seq<string>)
    ensures ParseAll(values).Ok? <==> Parsed(values).Ok? && Consistent(AsSet(Parsed(values).value))
    ensures ParseAll(values).Ok? ==> IsUnion(ParseAll(values).value, AsSet(Parsed(values).value))
  {
    ParseThenMerge(values);
    if Parsed(values).Ok? {
      MergeIsUnion(Parsed(values).value);
    }
  }

  ghost predicate ParsesTo(values: seq<string>, g: (string, Resources)) {
    exists v :: v in values && ParseOne(v) == Ok(g)
  }

  lemma {:induction false} ParsedMembers(values: seq<string>)
    ensures Parsed(values).Ok? <==> forall v :: v in values ==> ParseOne(v).Ok?
    ensures Parsed(values).Ok? ==> forall g :: g in Parsed(values).value <==> ParsesTo(values, g)
  {
    if values == [] {
    } else {
      var front, last := values[..|values| - 1], values[|values| - 1];
      ParsedMembers(front);
      assert values == front + [last];
      if Parsed(values).Ok? {
        forall g ensures ParsesTo(values, g) <==> ParsesTo(front, g) || ParseOne(last) == Ok(g) {
          assert last in values;
        }
      }
    }
  }

  /** Neither the order of the strings nor repeating one changes success or the result. */
  lemma OrderIrrelevant(v: seq<string>, w: seq<string>)
    requires forall x :: x in v <==> x in w
    ensures ParseAll(v).Ok? <==> ParseAll(w).Ok?
    ensures ParseAll(v).Ok? ==> ParseAll(v) == ParseAll(w)
  {
    ParseAllIsUnion(v);
    ParseAllIsUnion(w);
    ParsedMembers(v);
    ParsedMembers(w);
    if Parsed(v).Ok? && Parsed(w).Ok? {
      var s, t := AsSet(Parsed(v).value), AsSet(Parsed(w).value);
      forall g ensures g in s <==> g in t {
        assert ParsesTo(v, g) <==> ParsesTo(w, g);
      }
      assert s == t;
      if ParseAll(v).Ok? {
        UnionUnique(ParseAll(v).value, ParseAll(w).value, s);
      }
    }
  }
}
