/** Which commands are offered for a mistyped one. */
module Suggestions {
  import opened Text
  import opened Orders
  import opened EditDistance

  datatype CommandDistance = CommandDistance(distance: int, command: string)

  predicate Closer(x: CommandDistance, y: CommandDistance) {
    if x.distance == y.distance then NotAfter(x.command, y.command) else x.distance < y.distance
  }

  /** The source reads the first field of every candidate, so a blank catalog entry is not allowed. */
  ghost predicate Suitable(catalog: set<string>) {
    forall c :: c in catalog ==> Fields(c) != [] && Ascii(c)
  }

  ghost function AllCommands(groups: seq<seq<string>>): set<string> {
    set g, c | g in groups && c in g :: c
  }

  /** 0 for a completion of what was typed, otherwise one more than the edit distance to the first word. */
  function Rank(command: string, candidate: string): nat {
    if HasPrefix(candidate, command) then 0
    else
      var words := Fields(candidate);
      var word := if words == [] then "" else words[0];
      Table(command, word, |command|, |word|) + 1
  }

  ghost function Completions(command: string, catalog: set<string>): set<string> {
    set c | c in catalog && HasPrefix(c, command)
  }

  /** The other commands whose first word is cheapest to reach. */
  ghost function Nearest(command: string, catalog: set<string>): set<string> {
    set c | c in catalog && !HasPrefix(c, command)
         && forall d :: d in catalog && !HasPrefix(d, command) ==> Rank(command, c) <= Rank(command, d)
  }

  // ---------- the program ----------

  method CatalogCommandNames(groups: seq<seq<string>>) returns (commands: seq<string>)
    ensures commands == SortedSet(AllCommands(groups))
  {
    var seen: set<string> := {};
    commands := [];
    for i := 0 to |groups|
      invariant seen == AllCommands(groups[..i])
      invariant NoDuplicates(commands) && forall c :: c in commands <==> c in seen
    {
      var group := groups[i];
      ghost var before := seen;
      for j := 0 to |group|
        invariant seen == before + set c | c in group[..j]
        invariant NoDuplicates(commands) && forall c :: c in commands <==> c in seen
      {
        assert group[..j + 1] == group[..j] + [group[j]];
        if group[j] in seen {
          continue;
        }
        seen := seen + {group[j]};
        commands := commands + [group[j]];
      }
      assert group[..|group|] == group;
      assert groups[..i + 1] == groups[..i] + [group];
    }
    assert groups[..|groups|] == groups;
    NoDuplicatesMultiset(commands, seen);
    SortOfSet(commands, seen);
    commands := SortStrings(commands);
  }

  lemma {:induction false} FieldsStayAscii(s: string, w: string)
    requires w in Fields(s) && Ascii(s)
    ensures Ascii(w)
    decreases |s|
  {
    if IsSpace(s[0]) {
      FieldsStayAscii(s[1..], w);
    } else if w != FirstWord(s) {
      FieldsStayAscii(s[|FirstWord(s)|..], w);
    }
  }

  method RankCommands(command: string, commands: seq<string>) returns (distances: seq<CommandDistance>)
    requires Ascii(command) && forall c :: c in commands ==> Fields(c) != [] && Ascii(c)
    ensures |distances| == |commands|
    ensures forall i :: 0 <= i < |commands| ==> distances[i] == CommandDistance(Rank(command, commands[i]), commands[i])
  {
    distances := [];
    for i := 0 to |commands|
      invariant |distances| == i
      invariant forall k :: 0 <= k < i ==> distances[k] == CommandDistance(Rank(command, commands[k]), commands[k])
    {
      var candidate := commands[i];
      var prefix := Fields(candidate)[0];
      if HasPrefix(candidate, command) {
        distances := distances + [CommandDistance(0, candidate)];
        continue;
      }
      FieldsStayAscii(candidate, prefix);
      var distance := DamerauLevenshtein(command, prefix);
      distances := distances + [CommandDistance(distance + 1, candidate)];
    }
  }

  /** `ranked` lists every command of the catalog once, closest first. */
  ghost predicate Ranked(rank: string -> int, catalog: set<string>, ranked: seq<CommandDistance>) {
    && SortedBy(Closer, ranked)
    && (forall i :: 0 <= i < |ranked| ==> ranked[i].command in catalog && ranked[i].distance == rank(ranked[i].command))
    && (forall i, j :: 0 <= i < j < |ranked| ==> ranked[i].command != ranked[j].command)
    && (forall c :: c in catalog ==> IsListed(c, ranked))
  }

  ghost predicate IsListed(c: string, ranked: seq<CommandDistance>) {
    exists i :: 0 <= i < |ranked| && ranked[i].command == c
  }

  function Commands(ranked: seq<CommandDistance>): (r: seq<string>)
    ensures |r| == |ranked| && forall i :: 0 <= i < |r| ==> r[i] == ranked[i].command
  {
    seq(|ranked|, i requires 0 <= i < |ranked| => ranked[i].command)
  }

  /** No command at a positive distance is closer; so all at distance 0 are closest, and all at the next one. */
  ghost predicate IsClosest(distances: seq<CommandDistance>, k: nat)
    requires k < |distances|
  {
    forall l :: 0 <= l < |distances| && distances[l].distance > 0 ==> distances[k].distance <= distances[l].distance
  }

  /** The scan keeps exactly the closest commands, in their order. */
  method TakeClosest(distances: seq<CommandDistance>) returns (matches: seq<string>)
    requires SortedBy(Closer, distances) && forall k :: 0 <= k < |distances| ==> distances[k].distance >= 0
    ensures |matches| <= |distances| && matches == Commands(distances[..|matches|])
    ensures forall k :: 0 <= k < |distances| ==> (k < |matches| <==> IsClosest(distances, k))
  {
    matches := [];
    var matchDistance := 0;
    var i := 0;
    while i < |distances|
      invariant 0 <= i <= |distances| && matchDistance >= 0
      invariant matches == Commands(distances[..i])
      invariant matchDistance > 0 ==> exists l :: 0 <= l < i && distances[l].distance == matchDistance
      invariant forall k :: 0 <= k < i ==> distances[k].distance == 0 || distances[k].distance == matchDistance
    {
      if distances[i].distance > matchDistance {
        if matchDistance != 0 {
          break;
        }
        matchDistance := distances[i].distance;
      } else {
        assert i > 0 ==> Closer(distances[i - 1], distances[i]);
      }
      matches := matches + [distances[i].command];
      i := i + 1;
    }
    ScanStopsRight(distances, i, matchDistance);
  }

  lemma ScanStopsRight(distances: seq<CommandDistance>, n: nat, matchDistance: int)
    requires SortedBy(Closer, distances) && n <= |distances|
    requires forall k :: 0 <= k < n ==> distances[k].distance == 0 || distances[k].distance == matchDistance
    requires n < |distances| ==> 0 < matchDistance < distances[n].distance
    requires matchDistance > 0 ==> exists l :: 0 <= l < n && distances[l].distance == matchDistance
    ensures forall k :: 0 <= k < |distances| ==> (k < n <==> IsClosest(distances, k))
  {
    forall k | 0 <= k < |distances| ensures k < n <==> IsClosest(distances, k) {
      if k < n {
        forall l | 0 <= l < |distances| && distances[l].distance > 0 ensures distances[k].distance <= distances[l].distance {
          if l > n {
            assert Closer(distances[n], distances[l]);
          }
        }
      } else {
        assert k > n ==> Closer(distances[n], distances[k]);
      }
    }
  }

  /** Where the distances stop being 0, and what the closest ones after that have in common. */
  lemma FirstPositive(distances: seq<CommandDistance>, n: nat) returns (zeros: nat)
    requires SortedBy(Closer, distances) && forall k :: 0 <= k < |distances| ==> distances[k].distance >= 0
    requires n <= |distances| && forall k :: 0 <= k < |distances| ==> (k < n <==> IsClosest(distances, k))
    ensures zeros <= n && (distances != [] ==> n > 0)
    ensures forall k :: 0 <= k < |distances| ==> (k < zeros <==> distances[k].distance == 0)
    ensures forall k :: zeros <= k < |distances| ==> distances[k].distance >= distances[zeros].distance
    ensures forall k :: zeros <= k < |distances| ==> (k < n <==> distances[k].distance == distances[zeros].distance)
  {
    zeros := 0;
    while zeros < |distances| && distances[zeros].distance == 0
      invariant zeros <= |distances| && forall k :: 0 <= k < zeros ==> distances[k].distance == 0
    {
      zeros := zeros + 1;
    }
    forall k | zeros <= k < |distances| ensures distances[k].distance >= distances[zeros].distance {
      assert k > zeros ==> Closer(distances[zeros], distances[k]);
    }
    if zeros > 0 {
      assert IsClosest(distances, zeros - 1);
    } else if distances != [] {
      assert IsClosest(distances, 0);
    }
    forall k | zeros <= k < |distances| ensures k < n <==> distances[k].distance == distances[zeros].distance {
      assert IsClosest(distances, k) <==> distances[k].distance == distances[zeros].distance;
    }
  }

  /** Completions in alphabetical order, then all other commands at the smallest distance, alphabetically. */
  method FuzzyCommandMatches(command: string, groups: seq<seq<string>>) returns (matches: seq<string>)
    requires Ascii(command) && Suitable(AllCommands(groups))
    ensures var catalog := AllCommands(groups);
            && matches == SortedSet(Completions(command, catalog)) + SortedSet(Nearest(command, catalog))
            && NoDuplicates(matches)
            && (catalog != {} ==> matches != [])
  {
    ghost var catalog := AllCommands(groups);
    ghost var rank := (c: string) => Rank(command, c);
    var commands := CatalogCommandNames(groups);
    var distances := RankCommands(command, commands);
    SortedSetSorted(catalog);
    RankingIsRanked(rank, catalog, commands, distances);
    var ranked := Sort(Closer, distances);
    matches := TakeClosest(ranked);
    ClosestListed(rank, catalog, ranked, |matches|);
    ListingsMeet(command, catalog, rank);
  }

  // ---------- proofs ----------

  lemma CloserIsTotal()
    ensures TotalOrder(Closer)
  {
    NotAfterIsTotal();
  }

  lemma SortedListing(items: seq<string>, s: set<string>)
    requires SortedBy(NotAfter, items) && NoDuplicates(items) && forall c :: c in items <==> c in s
    ensures items == SortedSet(s)
  {
    NotAfterIsTotal();
    NoDuplicatesMultiset(items, s);
    SortedSetSorted(s);
    SortedUnique(NotAfter, items, SortedSet(s));
  }

  /** A rearrangement of distinct elements has distinct elements. */
  lemma DistinctRearranged<T>(a: seq<T>, b: seq<T>)
    requires multiset(a) == multiset(b) && NoDuplicates(a)
    ensures NoDuplicates(b)
  {
    NoDuplicatesMultiset(a, set x | x in a);
    forall i, j | 0 <= i < j < |b| ensures b[i] != b[j] {
      Occurrences(b, i, j);
    }
  }

  lemma Occurrences<T>(b: seq<T>, i: nat, j: nat)
    requires i < j < |b|
    ensures b[i] == b[j] ==> multiset(b)[b[i]] >= 2
  {
    assert b == b[..i] + [b[i]] + b[i + 1..j] + [b[j]] + b[j + 1..];
  }

  lemma RankingIsRanked(rank: string -> int, catalog: set<string>, commands: seq<string>, distances: seq<CommandDistance>)
    requires NoDuplicates(commands) && forall c :: c in commands <==> c in catalog
    requires |distances| == |commands|
    requires forall i :: 0 <= i < |commands| ==> distances[i] == CommandDistance(rank(commands[i]), commands[i])
    ensures Ranked(rank, catalog, Sort(Closer, distances))
  {
    var ranked := Sort(Closer, distances);
    CloserIsTotal();
    SortSorts(Closer, distances);
    DistinctRearranged(distances, ranked);
    forall i | 0 <= i < |ranked| ensures ranked[i].command in catalog && ranked[i].distance == rank(ranked[i].command) {
      assert ranked[i] in multiset(ranked);
      assert ranked[i] in distances;
    }
    forall i, j | 0 <= i < j < |ranked| ensures ranked[i].command != ranked[j].command {
      assert ranked[i] != ranked[j];
    }
    forall c | c in catalog ensures IsListed(c, ranked) {
      var k :| 0 <= k < |commands| && commands[k] == c;
      assert distances[k] in multiset(distances);
      assert distances[k] in ranked;
    }
  }

  /** A stretch of the ranking at one distance is the sorted listing of the commands found there. */
  lemma StretchIsListing(rank: string -> int, catalog: set<string>, ranked: seq<CommandDistance>, lo: nat, hi: nat, s: set<string>)
    requires Ranked(rank, catalog, ranked) && lo <= hi <= |ranked|
    requires forall k, l :: lo <= k < l < hi ==> ranked[k].distance == ranked[l].distance
    requires forall k :: 0 <= k < |ranked| ==> (ranked[k].command in s <==> lo <= k < hi)
    requires s <= catalog
    ensures Commands(ranked[lo..hi]) == SortedSet(s)
  {
    var items := Commands(ranked[lo..hi]);
    assert forall k :: 0 <= k < |items| ==> items[k] == ranked[lo + k].command;
    forall k, l | 0 <= k < l < |items| ensures NotAfter(items[k], items[l]) && items[k] != items[l] {
      assert Closer(ranked[lo + k], ranked[lo + l]);
    }
    forall c ensures c in items <==> c in s {
      if c in s {
        assert IsListed(c, ranked);
        var k :| 0 <= k < |ranked| && ranked[k].command == c;
        assert items[k - lo] == c;
      }
    }
    SortedListing(items, s);
  }

  ghost function AtZero(rank: string -> int, catalog: set<string>): set<string> {
    set c | c in catalog && rank(c) == 0
  }

  ghost function AtLeastPositive(rank: string -> int, catalog: set<string>): set<string> {
    set c | c in catalog && rank(c) != 0 && forall d :: d in catalog && rank(d) != 0 ==> rank(c) <= rank(d)
  }

  lemma StretchesListed(rank: string -> int, catalog: set<string>, ranked: seq<CommandDistance>, zeros: nat, end: nat)
    requires Ranked(rank, catalog, ranked) && zeros <= end <= |ranked|
    requires forall k :: 0 <= k < |ranked| ==> (k < zeros <==> ranked[k].distance == 0)
    requires forall k :: zeros <= k < |ranked| ==> ranked[k].distance >= ranked[zeros].distance
    requires forall k :: zeros <= k < |ranked| ==> (k < end <==> ranked[k].distance == ranked[zeros].distance)
    ensures Commands(ranked[..zeros]) == SortedSet(AtZero(rank, catalog))
    ensures Commands(ranked[zeros..end]) == SortedSet(AtLeastPositive(rank, catalog))
  {
    assert ranked[0..zeros] == ranked[..zeros];
    StretchIsListing(rank, catalog, ranked, 0, zeros, AtZero(rank, catalog));
    var s := AtLeastPositive(rank, catalog);
    forall k | 0 <= k < |ranked| ensures ranked[k].command in s <==> zeros <= k < end {
      if zeros <= k {
        assert rank(ranked[zeros].command) != 0;
        if k < end {
          forall d | d in catalog && rank(d) != 0 ensures rank(ranked[k].command) <= rank(d) {
            assert IsListed(d, ranked);
          }
        }
      }
    }
    StretchIsListing(rank, catalog, ranked, zeros, end, s);
  }

  lemma ClosestDistinct(rank: string -> int, catalog: set<string>, ranked: seq<CommandDistance>, n: nat)
    requires Ranked(rank, catalog, ranked) && n <= |ranked| && (ranked != [] ==> n > 0)
    ensures var matches := Commands(ranked[..n]); NoDuplicates(matches) && (catalog != {} ==> matches != [])
  {
    var matches := Commands(ranked[..n]);
    assert forall k :: 0 <= k < n ==> matches[k] == ranked[k].command;
    if catalog != {} {
      var c :| c in catalog;
      assert IsListed(c, ranked);
    }
  }

  lemma CommandsSplit(ranked: seq<CommandDistance>, zeros: nat, n: nat)
    requires zeros <= n <= |ranked|
    ensures Commands(ranked[..n]) == Commands(ranked[..zeros]) + Commands(ranked[zeros..n])
  {
  }

  /** The closest commands of a ranking are two sorted listings. */
  lemma ClosestListed(rank: string -> int, catalog: set<string>, ranked: seq<CommandDistance>, n: nat)
    requires Ranked(rank, catalog, ranked) && forall k :: 0 <= k < |ranked| ==> ranked[k].distance >= 0
    requires n <= |ranked| && forall k :: 0 <= k < |ranked| ==> (k < n <==> IsClosest(ranked, k))
    ensures var matches := Commands(ranked[..n]);
            && matches == SortedSet(AtZero(rank, catalog)) + SortedSet(AtLeastPositive(rank, catalog))
            && NoDuplicates(matches) && (catalog != {} ==> matches != [])
  {
    var zeros := FirstPositive(ranked, n);
    StretchesListed(rank, catalog, ranked, zeros, n);
    CommandsSplit(ranked, zeros, n);
    ClosestDistinct(rank, catalog, ranked, n);
  }

  lemma ListingsMeet(command: string, catalog: set<string>, rank: string -> int)
    requires forall c :: rank(c) == Rank(command, c)
    ensures AtZero(rank, catalog) == Completions(command, catalog)
    ensures AtLeastPositive(rank, catalog) == Nearest(command, catalog)
  {
    assert forall c :: rank(c) == 0 <==> HasPrefix(c, command);
  }

  lemma {:induction false} FirstField(s: string)
    requires Fields(s) != []
    ensures Fields(s)[0] == FirstWord(TrimLeft(s))
    decreases |s|
  {
    if s != "" && IsSpace(s[0]) {
      FirstField(s[1..]);
    }
  }

  /** `d` is what turning `command` into the first word of `candidate` costs at least. */
  ghost predicate Costs(command: string, candidate: string, d: int) {
    IsCheapest(command, FirstWord(TrimLeft(candidate)), d)
  }

  lemma RankCosts(command: string, candidate: string, d: int)
    requires Fields(candidate) != [] && !HasPrefix(candidate, command)
    ensures Costs(command, candidate, d) <==> Rank(command, candidate) == d + 1
  {
    FirstField(candidate);
    TableIsCheapest(command, Fields(candidate)[0]);
  }

  /** The nearest commands are those that are no completions and whose first word is reached at the least cost. */
  lemma NearestMeans(command: string, catalog: set<string>, c: string, d: int)
    requires Suitable(catalog) && c in catalog && !(command <= c) && Costs(command, c, d)
    ensures c in Nearest(command, catalog)
            <==> forall other, e :: other in catalog && !(command <= other) && Costs(command, other, e) ==> d <= e
  {
    RankCosts(command, c, d);
    forall other, e | other in catalog && !HasPrefix(other, command) && Costs(command, other, e)
      ensures Rank(command, other) == e + 1
    {
      RankCosts(command, other, e);
    }
    forall other | other in catalog && !HasPrefix(other, command) ensures Costs(command, other, Rank(command, other) - 1) {
      RankCosts(command, other, Rank(command, other) - 1);
    }
  }
}
