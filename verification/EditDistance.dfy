/** The typo distance behind command suggestions: a three-row dynamic program over asymmetric edits. */
module EditDistance {
  const SWAP_COST := 0
  const SUBSTITUTION_COST := 2
  const INSERTION_COST := 1
  const DELETION_COST := 3

  // ---------- what the distance means: the cheapest edit script ----------

  datatype Edit = Keep | Substitute(c: char) | Insert(c: char) | Delete | Swap

  function Cost(e: Edit): nat {
    match e
    case Keep => 0
    case Substitute(_) => SUBSTITUTION_COST
    case Insert(_) => INSERTION_COST
    case Delete => DELETION_COST
    case Swap => SWAP_COST
  }

  function TotalCost(script: seq<Edit>): nat {
    if script == [] then 0 else TotalCost(script[..|script| - 1]) + Cost(script[|script| - 1])
  }

  function Consumes(e: Edit): nat {
    match e
    case Insert(_) => 0
    case Swap => 2
    case _ => 1
  }

  function Produces(e: Edit): nat {
    match e
    case Delete => 0
    case Swap => 2
    case _ => 1
  }

  /** What one edit writes when it reads exactly `input`. */
  function Output(e: Edit, input: string): (output: string)
    requires |input| == Consumes(e)
    ensures |output| == Produces(e)
  {
    match e
    case Keep => input
    case Substitute(c) => [c]
    case Insert(c) => [c]
    case Delete => ""
    case Swap => [input[1], input[0]]
  }

  /** The edits of the script, side by side, read all of `a[..i]` and write exactly `b[..j]`. */
  ghost predicate RewritesPrefix(script: seq<Edit>, a: string, b: string, i: int, j: int)
    requires i <= |a| && j <= |b|
  {
    if script == [] then i == 0 && j == 0
    else
      var e := script[|script| - 1];
      var p, q := i - Consumes(e), j - Produces(e);
      p >= 0 && q >= 0 && b[q..j] == Output(e, a[p..i]) && RewritesPrefix(script[..|script| - 1], a, b, p, q)
  }

  ghost predicate Rewrites(script: seq<Edit>, a: string, b: string) {
    RewritesPrefix(script, a, b, |a|, |b|)
  }

  ghost predicate IsCheapest(a: string, b: string, d: int) {
    && (exists script :: Rewrites(script, a, b) && TotalCost(script) == d)
    && (forall script :: Rewrites(script, a, b) ==> d <= TotalCost(script))
  }

  /** `b[..j]` is `a[..i]` with some disjoint pairs of neighbours exchanged. */
  ghost predicate NeighboursSwapped(a: string, b: string, i: nat, j: nat)
    requires i <= |a| && j <= |b|
  {
    if i == 0 || j == 0 then i == j
    else
      || (a[i - 1] == b[j - 1] && NeighboursSwapped(a, b, i - 1, j - 1))
      || (i >= 2 && j >= 2 && a[i - 1] == b[j - 2] && a[i - 2] == b[j - 1] && NeighboursSwapped(a, b, i - 2, j - 2))
  }

  // ---------- the table: distances between prefixes ----------

  function Min(x: int, y: int): int {
    if y < x then y else x
  }

  /** The last two characters of the prefixes are each other's mirror image. */
  predicate Crossed(a: string, b: string, i: nat, j: nat)
    requires i <= |a| && j <= |b|
  {
    i > 1 && j > 1 && a[i - 2] == b[j - 1] && a[i - 1] == b[j - 2]
  }

  function Cell(differ: bool, diagonal: int, left: int, above: int): int {
    Min(Min(diagonal + (if differ then SUBSTITUTION_COST else 0), left + INSERTION_COST), above + DELETION_COST)
  }

  function Table(a: string, b: string, i: nat, j: nat): (cost: int)
    requires i <= |a| && j <= |b|
    ensures cost >= 0
  {
    if i == 0 then j * INSERTION_COST
    else if j == 0 then i * DELETION_COST
    else
      var cell := Cell(a[i - 1] != b[j - 1], Table(a, b, i - 1, j - 1), Table(a, b, i, j - 1), Table(a, b, i - 1, j));
      if Crossed(a, b, i, j) then Min(cell, Table(a, b, i - 2, j - 2) + SWAP_COST) else cell
  }

  /** The table entry is the least over the edits that may come last. */
  lemma LeastOfFour(a: string, b: string, i: nat, j: nat)
    requires 0 < i <= |a| && 0 < j <= |b|
    ensures var t, substitution := Table(a, b, i, j), if a[i - 1] == b[j - 1] then 0 else SUBSTITUTION_COST;
            && t <= Table(a, b, i - 1, j - 1) + substitution
            && t <= Table(a, b, i, j - 1) + INSERTION_COST
            && t <= Table(a, b, i - 1, j) + DELETION_COST
            && (Crossed(a, b, i, j) ==> t <= Table(a, b, i - 2, j - 2) + SWAP_COST)
            && (|| t == Table(a, b, i - 1, j - 1) + substitution
                || t == Table(a, b, i, j - 1) + INSERTION_COST
                || t == Table(a, b, i - 1, j) + DELETION_COST
                || (Crossed(a, b, i, j) && t == Table(a, b, i - 2, j - 2) + SWAP_COST))
  {
  }

  /** Which characters an edit at the end of two prefixes needs. */
  predicate Fits(e: Edit, a: string, b: string, i: nat, j: nat)
    requires i <= |a| && j <= |b|
  {
    match e
    case Keep => i > 0 && j > 0 && a[i - 1] == b[j - 1]
    case Substitute(c) => i > 0 && j > 0 && c == b[j - 1]
    case Insert(c) => j > 0 && c == b[j - 1]
    case Delete => i > 0
    case Swap => Crossed(a, b, i, j)
  }

  lemma FitsWrites(e: Edit, a: string, b: string, i: nat, j: nat)
    requires i <= |a| && j <= |b|
    ensures var p, q := i - Consumes(e), j - Produces(e);
            Fits(e, a, b, i, j) <==> p >= 0 && q >= 0 && b[q..j] == Output(e, a[p..i])
  {
    var p, q := i - Consumes(e), j - Produces(e);
    if p >= 0 && q >= 0 {
      var read, written := a[p..i], b[q..j];
      if e.Swap? {
        assert read == [a[i - 2], a[i - 1]] && written == [b[j - 2], b[j - 1]];
      } else {
        assert |read| == 1 ==> read[0] == a[i - 1];
        assert |written| == 1 ==> written[0] == b[j - 1];
      }
    }
  }

  lemma EditBound(e: Edit, a: string, b: string, i: nat, j: nat)
    requires i <= |a| && j <= |b| && Fits(e, a, b, i, j)
    ensures Table(a, b, i, j) <= Table(a, b, i - Consumes(e), j - Produces(e)) + Cost(e)
  {
    if i > 0 && j > 0 {
      LeastOfFour(a, b, i, j);
    }
  }

  /** An edit that a cheapest script for the two prefixes may end with. */
  lemma LastChoice(a: string, b: string, i: nat, j: nat) returns (e: Edit)
    requires i <= |a| && j <= |b| && i + j > 0
    ensures Fits(e, a, b, i, j)
    ensures Table(a, b, i, j) == Table(a, b, i - Consumes(e), j - Produces(e)) + Cost(e)
  {
    if i == 0 || j == 0 {
      e := if i == 0 then Insert(b[j - 1]) else Delete;
    } else {
      LeastOfFour(a, b, i, j);
      var t := Table(a, b, i, j);
      e := if t == Table(a, b, i, j - 1) + INSERTION_COST then Insert(b[j - 1])
           else if t == Table(a, b, i - 1, j) + DELETION_COST then Delete
           else if Crossed(a, b, i, j) && t == Table(a, b, i - 2, j - 2) + SWAP_COST then Swap
           else if a[i - 1] == b[j - 1] then Keep
           else Substitute(b[j - 1]);
    }
  }

  lemma TotalCostSnoc(front: seq<Edit>, e: Edit)
    ensures TotalCost(front + [e]) == TotalCost(front) + Cost(e)
  {
    assert (front + [e])[..|front|] == front;
  }

  lemma RewritesSnoc(script: seq<Edit>, front: seq<Edit>, e: Edit, a: string, b: string, i: nat, j: nat)
    requires i <= |a| && j <= |b| && Fits(e, a, b, i, j)
    requires script == front + [e] && RewritesPrefix(front, a, b, i - Consumes(e), j - Produces(e))
    ensures RewritesPrefix(script, a, b, i, j)
  {
    FitsWrites(e, a, b, i, j);
    assert script[..|script| - 1] == front && script[|script| - 1] == e;
  }

  /** Some script realises every table entry ... */
  lemma {:induction false} Achieved(a: string, b: string, i: nat, j: nat) returns (script: seq<Edit>)
    requires i <= |a| && j <= |b|
    ensures RewritesPrefix(script, a, b, i, j) && TotalCost(script) == Table(a, b, i, j)
    decreases i + j
  {
    if i + j == 0 {
      script := [];
    } else {
      var e := LastChoice(a, b, i, j);
      var front := Achieved(a, b, i - Consumes(e), j - Produces(e));
      script := front + [e];
      TotalCostSnoc(front, e);
      RewritesSnoc(script, front, e, a, b, i, j);
    }
  }

  /** ... and no script undercuts one. */
  lemma {:induction false} NoneCheaper(a: string, b: string, i: nat, j: nat, script: seq<Edit>)
    requires i <= |a| && j <= |b| && RewritesPrefix(script, a, b, i, j)
    ensures Table(a, b, i, j) <= TotalCost(script)
    decreases |script|
  {
    if script == [] {
    } else {
      var e := script[|script| - 1];
      var p, q := i - Consumes(e), j - Produces(e);
      NoneCheaper(a, b, p, q, script[..|script| - 1]);
      FitsWrites(e, a, b, i, j);
      EditBound(e, a, b, i, j);
    }
  }

  lemma {:induction false} TableIsCheapest(a: string, b: string)
    ensures IsCheapest(a, b, Table(a, b, |a|, |b|))
  {
    var script := Achieved(a, b, |a|, |b|);
    forall s | Rewrites(s, a, b) ensures Table(a, b, |a|, |b|) <= TotalCost(s) {
      NoneCheaper(a, b, |a|, |b|, s);
    }
  }

  // ---------- the program ----------

  ghost predicate Ascii(s: string) {
    forall i :: 0 <= i < |s| ==> s[i] < 128 as char
  }

  ghost predicate IsLeast(minimum: int, first: int, values: seq<int>) {
    && (minimum == first || minimum in values)
    && minimum <= first && forall k :: 0 <= k < |values| ==> minimum <= values[k]
  }

  lemma LeastIsMin(m: int, first: int, x: int, y: int)
    ensures IsLeast(m, first, [x]) ==> m == Min(first, x)
    ensures IsLeast(m, first, [x, y]) ==> m == Min(Min(first, x), y)
  {
    assert [x][0] == x && [x, y][0] == x && [x, y][1] == y;
  }

  method MinInt(first: int, values: seq<int>) returns (minimum: int)
    ensures IsLeast(minimum, first, values)
  {
    minimum := first;
    for k := 0 to |values|
      invariant minimum == first || minimum in values
      invariant minimum <= first && forall l :: 0 <= l < k ==> minimum <= values[l]
    {
      if values[k] < minimum {
        minimum := values[k];
      }
    }
  }

  /** Fills `row2` with the table row below `row1`; `row0` is the row above that. */
  method FillRow(a: string, b: string, i: nat, row0: array<int>, row1: array<int>, row2: array<int>)
    requires i < |a| && row0 != row2 && row1 != row2
    requires row0.Length == row1.Length == row2.Length == |b| + 1
    requires forall k :: 0 <= k <= |b| ==> row1[k] == Table(a, b, i, k)
    requires i > 0 ==> forall k :: 0 <= k <= |b| ==> row0[k] == Table(a, b, i - 1, k)
    modifies row2
    ensures forall k :: 0 <= k <= |b| ==> row2[k] == Table(a, b, i + 1, k)
  {
    row2[0] := (i + 1) * DELETION_COST;
    for j := 0 to |b|
      invariant forall k :: 0 <= k <= j ==> row2[k] == Table(a, b, i + 1, k)
    {
      var substitution := row1[j];
      if a[i] != b[j] {
        substitution := substitution + SUBSTITUTION_COST;
      }
      var insertion := row2[j] + INSERTION_COST;
      var deletion := row1[j + 1] + DELETION_COST;
      var cost := MinInt(substitution, [insertion, deletion]);
      LeastIsMin(cost, substitution, insertion, deletion);
      if i > 0 && j > 0 && a[i - 1] == b[j] && a[i] == b[j - 1] {
        var swap := row0[j - 1] + SWAP_COST;
        var least := MinInt(cost, [swap]);
        LeastIsMin(least, cost, swap, 0);
        cost := least;
      }
      assert cost == Table(a, b, i + 1, j + 1);
      row2[j + 1] := cost;
    }
  }

  /** On ASCII text, where stepping by rune and by byte agree, the rotating rows give the cheapest script. */
  method DamerauLevenshtein(a: string, b: string) returns (distance: int)
    requires Ascii(a) && Ascii(b)
    ensures distance == Table(a, b, |a|, |b|)
    ensures IsCheapest(a, b, distance)
  {
    TableIsCheapest(a, b);
    if a == b {
      SameMeansSwapped(a, |a|);
      ZeroMeansSwapped(a, b, |a|, |b|);
      return 0;
    }
    if |a| == 0 {
      return |b| * INSERTION_COST;
    }
    if |b| == 0 {
      return |a| * DELETION_COST;
    }

    var row1 := new int[|b| + 1];
    var row2 := new int[|b| + 1];
    var row0 := new int[|b| + 1];
    for i := 0 to row1.Length
      invariant forall k :: 0 <= k < i ==> row1[k] == k * INSERTION_COST
    {
      row1[i] := i * INSERTION_COST;
      row2[i] := row1[i];
      row0[i] := row1[i];
    }

    for i := 0 to |a|
      invariant row0 != row1 && row1 != row2 && row2 != row0
      invariant row0.Length == row1.Length == row2.Length == |b| + 1
      invariant fresh(row0) && fresh(row1) && fresh(row2)
      invariant forall k :: 0 <= k <= |b| ==> row1[k] == Table(a, b, i, k)
      invariant i > 0 ==> forall k :: 0 <= k <= |b| ==> row0[k] == Table(a, b, i - 1, k)
    {
      FillRow(a, b, i, row0, row1, row2);
      row0, row1, row2 := row1, row2, row0;
    }
    return row1[|b|];
  }

  // ---------- consequences ----------

  lemma {:induction false} ScriptLowerBound(script: seq<Edit>, a: string, b: string, i: nat, j: nat)
    requires i <= |a| && j <= |b| && RewritesPrefix(script, a, b, i, j)
    ensures TotalCost(script) >= j - i
    ensures TotalCost(script) >= 3 * (i - j)
  {
    if script == [] {
    } else {
      var e := script[|script| - 1];
      ScriptLowerBound(script[..|script| - 1], a, b, i - Consumes(e), j - Produces(e));
    }
  }

  lemma {:induction false} TableUpperBound(a: string, b: string, i: nat, j: nat)
    requires i <= |a| && j <= |b|
    ensures Table(a, b, i, j) <= 2 * Min(i, j) + (if j > i then j - i else 3 * (i - j))
  {
    if i > 0 && j > 0 {
      TableUpperBound(a, b, i - 1, j - 1);
    }
  }

  /** A zero can only come from an equal last character or from a swap. */
  lemma ZeroStep(a: string, b: string, i: nat, j: nat)
    requires 0 < i <= |a| && 0 < j <= |b|
    ensures Table(a, b, i, j) == 0
            <==> || (a[i - 1] == b[j - 1] && Table(a, b, i - 1, j - 1) == 0)
                 || (Crossed(a, b, i, j) && Table(a, b, i - 2, j - 2) == 0)
  {
    LeastOfFour(a, b, i, j);
  }

  lemma {:induction false} ZeroMeansSwapped(a: string, b: string, i: nat, j: nat)
    requires i <= |a| && j <= |b|
    ensures Table(a, b, i, j) == 0 <==> NeighboursSwapped(a, b, i, j)
  {
    if i > 0 && j > 0 {
      ZeroStep(a, b, i, j);
      ZeroMeansSwapped(a, b, i - 1, j - 1);
      if i > 1 && j > 1 {
        ZeroMeansSwapped(a, b, i - 2, j - 2);
      }
    }
  }

  lemma {:induction false} SameMeansSwapped(a: string, i: nat)
    requires i <= |a|
    ensures NeighboursSwapped(a, a, i, i)
  {
    if i == 0 {
    } else {
      SameMeansSwapped(a, i - 1);
    }
  }

  /** Where the distance lies, and exactly when it is zero. */
  lemma {:induction false} DistanceRange(a: string, b: string, d: int)
    requires IsCheapest(a, b, d)
    ensures d >= |b| - |a| && d >= 3 * (|a| - |b|)
    ensures d <= 2 * Min(|a|, |b|) + (if |b| > |a| then |b| - |a| else 3 * (|a| - |b|))
    ensures d == 0 <==> NeighboursSwapped(a, b, |a|, |b|)
  {
    var script :| Rewrites(script, a, b) && TotalCost(script) == d;
    ScriptLowerBound(script, a, b, |a|, |b|);
    TableIsCheapest(a, b);
    var t := Table(a, b, |a|, |b|);
    var cheapest :| Rewrites(cheapest, a, b) && TotalCost(cheapest) == t;
    assert d == t;
    TableUpperBound(a, b, |a|, |b|);
    ZeroMeansSwapped(a, b, |a|, |b|);
  }

  ghost predicate NothingInCommon(a: string, b: string) {
    forall i, j :: 0 <= i < |a| && 0 <= j < |b| ==> a[i] != b[j]
  }

  lemma LastEditOf(script: seq<Edit>, a: string, b: string, i: nat, j: nat)
    requires i <= |a| && j <= |b| && script != [] && RewritesPrefix(script, a, b, i, j) && NothingInCommon(a, b)
    ensures var e := script[|script| - 1]; e != Keep && e != Swap
  {
    FitsWrites(script[|script| - 1], a, b, i, j);
  }

  /** Without a common character nothing can be kept or exchanged, so every character is paid for. */
  lemma {:induction false} DisjointLowerBound(script: seq<Edit>, a: string, b: string, i: nat, j: nat)
    requires i <= |a| && j <= |b| && RewritesPrefix(script, a, b, i, j) && NothingInCommon(a, b)
    ensures TotalCost(script) >= j + 3 * i - 2 * Min(i, j)
  {
    if script == [] {
    } else {
      var e := script[|script| - 1];
      LastEditOf(script, a, b, i, j);
      DisjointLowerBound(script[..|script| - 1], a, b, i - Consumes(e), j - Produces(e));
    }
  }

  /**
   * The prices of the edits, seen from outside: texts without a common character are exactly 2 apart for each character
   * of the shorter one, and 1 for each inserted or 3 for each deleted character beyond that.
   */
  lemma {:induction false} DisjointDistance(a: string, b: string, d: int)
    requires IsCheapest(a, b, d) && NothingInCommon(a, b)
    ensures d == 2 * Min(|a|, |b|) + if |b| > |a| then |b| - |a| else 3 * (|a| - |b|)
  {
    var script :| Rewrites(script, a, b) && TotalCost(script) == d;
    DisjointLowerBound(script, a, b, |a|, |b|);
    DistanceRange(a, b, d);
  }
}
