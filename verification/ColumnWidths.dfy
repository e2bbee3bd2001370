/** Column widths of the enhanced tables: natural widths, minimums, and fair shrinking. */
module ColumnWidths {
  import opened Text
  import opened Wrapping

  function Max(x: int, y: int): int { if x < y then y else x }

  function Min(x: int, y: int): int { if x < y then x else y }

  function Sum(values: seq<int>): int {
    if values == [] then 0 else Sum(values[..|values| - 1]) + values[|values| - 1]
  }

  lemma {:induction false} SumUpdate(values: seq<int>, i: nat, x: int)
    requires i < |values|
    ensures Sum(values[i := x]) == Sum(values) - values[i] + x
  {
    var front := values[..|values| - 1];
    if i == |values| - 1 {
      assert values[i := x][..|values| - 1] == front;
    } else {
      SumUpdate(front, i, x);
      assert values[i := x][..|values| - 1] == front[i := x];
    }
  }

  /** Pointwise smaller lists have smaller sums, and equal sums leave no room for a difference. */
  lemma {:induction false} SumMonotone(f: seq<int>, g: seq<int>)
    requires |f| == |g| && forall i :: 0 <= i < |f| ==> f[i] <= g[i]
    ensures Sum(f) <= Sum(g)
    ensures Sum(f) == Sum(g) ==> f == g
  {
    if f == [] {
    } else {
      var n := |f| - 1;
      SumMonotone(f[..n], g[..n]);
      assert f == f[..n] + [f[n]] && g == g[..n] + [g[n]];
    }
  }

  method SumInts(values: seq<int>) returns (total: int)
    ensures total == Sum(values)
  {
    total := 0;
    for i := 0 to |values|
      invariant total == Sum(values[..i])
    {
      assert values[..i + 1][..i] == values[..i];
      total := total + values[i];
    }
    assert values[..|values|] == values;
  }

  // ---------- shrinking is water-filling ----------

  /**
   * Every column whose slack (width minus minimum) is at most `level` is untouched; every other column is
   * left with slack `level` or `level + 1`, the leftmost of them with `level`.
   */
  ghost predicate WaterFilled(widths: seq<int>, minimums: seq<int>, fitted: seq<int>, level: int) {
    && level >= 0
    && |widths| == |minimums| == |fitted|
    && (forall i :: 0 <= i < |widths| && widths[i] - minimums[i] <= level ==> fitted[i] == widths[i])
    && (forall i :: 0 <= i < |widths| && widths[i] - minimums[i] > level ==> level <= fitted[i] - minimums[i] <= level + 1)
    && (forall i, j :: 0 <= i < j < |widths| && widths[i] - minimums[i] > level && widths[j] - minimums[j] > level ==>
          fitted[j] - minimums[j] == level ==> fitted[i] - minimums[i] == level)
  }

  /** The narrowest the columns may become: no column is widened to its minimum. */
  function Floors(widths: seq<int>, minimums: seq<int>): seq<int>
    requires |widths| == |minimums|
  {
    seq(|widths|, i requires 0 <= i < |widths| => Min(widths[i], minimums[i]))
  }

  ghost predicate NoneShrinkable(fitted: seq<int>, minimums: seq<int>)
    requires |fitted| == |minimums|
  {
    forall i :: 0 <= i < |fitted| ==> fitted[i] <= minimums[i]
  }

  ghost predicate LeftmostShrinkable(fitted: seq<int>, minimums: seq<int>, index: nat)
    requires |fitted| == |minimums| && index < |fitted|
  {
    && fitted[index] > minimums[index]
    && (forall i :: 0 <= i < |fitted| ==> fitted[i] - minimums[i] <= fitted[index] - minimums[index])
    && (forall i :: 0 <= i < index ==> fitted[i] - minimums[i] < fitted[index] - minimums[index])
  }

  /** The first column with the largest positive slack, or -1. */
  method MostShrinkable(fitted: seq<int>, minimums: seq<int>) returns (index: int)
    requires |fitted| == |minimums|
    ensures -1 <= index < |fitted|
    ensures if index == -1 then NoneShrinkable(fitted, minimums) else LeftmostShrinkable(fitted, minimums, index)
  {
    index := -1;
    var shrinkable := 0;
    for i := 0 to |fitted|
      invariant -1 <= index < i && shrinkable >= 0
      invariant index == -1 ==> shrinkable == 0
      invariant index >= 0 ==> shrinkable == fitted[index] - minimums[index] > 0
      invariant forall k :: 0 <= k < i ==> fitted[k] - minimums[k] <= shrinkable
      invariant forall k :: 0 <= k < index ==> fitted[k] - minimums[k] < shrinkable
    {
      var available := fitted[i] - minimums[i];
      if available > shrinkable {
        index := i;
        shrinkable := available;
      }
    }
  }

  lemma {:induction false} SomeLevelCovers(widths: seq<int>, minimums: seq<int>) returns (level: nat)
    requires |widths| == |minimums|
    ensures forall i :: 0 <= i < |widths| ==> widths[i] - minimums[i] <= level
  {
    level := 0;
    for i := 0 to |widths|
      invariant forall k :: 0 <= k < i ==> widths[k] - minimums[k] <= level
    {
      if widths[i] - minimums[i] > level {
        level := widths[i] - minimums[i];
      }
    }
  }

  /** Taking one cell from the first column with the largest slack keeps the widths water-filled. */
  lemma ShrinkKeepsWaterFilled(widths: seq<int>, minimums: seq<int>, fitted: seq<int>, level: int, index: nat)
    requires WaterFilled(widths, minimums, fitted, level)
    requires index < |fitted| && LeftmostShrinkable(fitted, minimums, index)
    ensures WaterFilled(widths, minimums, fitted[index := fitted[index] - 1], fitted[index] - minimums[index] - 1)
    ensures Sum(fitted[index := fitted[index] - 1]) == Sum(fitted) - 1
  {
    SumUpdate(fitted, index, fitted[index] - 1);
  }

  /** The loop that finds no slack left has reached the floors. */
  lemma DrainedToFloors(widths: seq<int>, minimums: seq<int>, fitted: seq<int>, level: int)
    requires WaterFilled(widths, minimums, fitted, level) && NoneShrinkable(fitted, minimums)
    ensures fitted == Floors(widths, minimums)
  {
  }

  /** Takes one cell from the first column with the largest slack, if any column has slack. */
  method ShrinkOnce(widths: seq<int>, minimums: seq<int>, fitted: array<int>, ghost level: int)
    returns (shrunk: bool, ghost next: int)
    requires WaterFilled(widths, minimums, fitted[..], level)
    modifies fitted
    ensures WaterFilled(widths, minimums, fitted[..], next)
    ensures if shrunk then Sum(fitted[..]) == old(Sum(fitted[..])) - 1 else fitted[..] == old(fitted[..]) == Floors(widths, minimums)
  {
    ghost var now := fitted[..];
    var index := MostShrinkable(fitted[..], minimums);
    if index == -1 {
      DrainedToFloors(widths, minimums, now, level);
      return false, level;
    }
    ShrinkKeepsWaterFilled(widths, minimums, now, level, index);
    fitted[index] := fitted[index] - 1;
    assert fitted[..] == now[index := now[index] - 1];
    return true, now[index] - minimums[index] - 1;
  }

  method PrettyFitWidths(widths: seq<int>, minimums: seq<int>, usableWidth: int) returns (r: seq<int>)
    requires |widths| == |minimums|
    ensures exists level :: WaterFilled(widths, minimums, r, level)
    ensures Sum(r) == if Sum(widths) <= usableWidth then Sum(widths) else Max(usableWidth, Sum(Floors(widths, minimums)))
  {
    var fitted := new int[|widths|](i requires 0 <= i < |widths| => widths[i]);
    assert fitted[..] == widths;
    ghost var level: int := SomeLevelCovers(widths, minimums);
    var total := SumInts(fitted[..]);
    while total > usableWidth
      invariant total == Sum(fitted[..]) >= Min(Sum(widths), usableWidth)
      invariant Sum(widths) <= usableWidth ==> fitted[..] == widths
      invariant WaterFilled(widths, minimums, fitted[..], level)
      decreases total - usableWidth
    {
      var shrunk;
      shrunk, level := ShrinkOnce(widths, minimums, fitted, level);
      if !shrunk {
        break;
      }
      total := SumInts(fitted[..]);
    }
    r := fitted[..];
    WaterFilledBounds(widths, minimums, r, level);
  }

  lemma WaterFilledBounds(widths: seq<int>, minimums: seq<int>, fitted: seq<int>, level: int)
    requires WaterFilled(widths, minimums, fitted, level)
    ensures forall i :: 0 <= i < |widths| ==> Min(widths[i], minimums[i]) <= fitted[i] <= widths[i]
    ensures Sum(Floors(widths, minimums)) <= Sum(fitted) <= Sum(widths)
  {
    SumMonotone(fitted, widths);
    SumMonotone(Floors(widths, minimums), fitted);
  }

  /** Water-filling pins the widths down: at most one list with a given total is water-filled. */
  lemma WaterFillUnique(widths: seq<int>, minimums: seq<int>, f: seq<int>, l: int, g: seq<int>, m: int)
    requires WaterFilled(widths, minimums, f, l) && WaterFilled(widths, minimums, g, m)
    requires Sum(f) == Sum(g)
    ensures f == g
  {
    if (forall i :: 0 <= i < |f| ==> f[i] <= g[i]) {
      SumMonotone(f, g);
    } else {
      var k :| 0 <= k < |f| && f[k] > g[k];
      assert m <= l;
      assert forall i :: 0 <= i < |f| ==> g[i] <= f[i];
      SumMonotone(g, f);
    }
  }

  /** No other widths of the same total, within the same bounds, have a smaller largest slack. */
  lemma WaterFillFairest(widths: seq<int>, minimums: seq<int>, f: seq<int>, level: int, g: seq<int>, i: nat)
    requires WaterFilled(widths, minimums, f, level) && i < |f|
    requires |g| == |f| && Sum(g) == Sum(f) && forall k :: 0 <= k < |g| ==> g[k] <= widths[k]
    ensures exists j :: 0 <= j < |g| && g[j] - minimums[j] >= f[i] - minimums[i]
  {
    if forall j :: 0 <= j < |g| ==> g[j] - minimums[j] < f[i] - minimums[i] {
      SumMonotone(g, f);
    }
  }

  // ---------- the enhanced tables ----------

  /** The first `k` columns without an identifier-like name are given up: their minimum becomes 1. */
  function GiveUp(base: seq<int>, headers: seq<string>, idLike: string -> bool, k: nat): seq<int>
    requires |base| == |headers|
  {
    seq(|base|, i requires 0 <= i < |base| => if i < k && !idLike(headers[i]) then 1 else base[i])
  }

  /** Gives up columns from the left until the minimums fit, and otherwise levels all of them. */
  function SqueezedMinimums(base: seq<int>, headers: seq<string>, idLike: string -> bool, usable: int, k: nat): (r: seq<int>)
    requires |base| == |headers| && k <= |base|
    ensures |r| == |base|
    decreases |base| - k
  {
    var squeezed := GiveUp(base, headers, idLike, k);
    if Sum(squeezed) <= usable then squeezed
    else if k < |base| then SqueezedMinimums(base, headers, idLike, usable, k + 1)
    else seq(|base|, _ => if usable < |base| then 0 else 1)
  }

  function BaseMinimums(headers: seq<string>, idLike: string -> bool): seq<int> {
    seq(|headers|, i requires 0 <= i < |headers| =>
      var width := Min(Max(|headers[i]|, 4), 12);
      if idLike(headers[i]) then Max(width, 12) else width)
  }

  function MinimumsFor(headers: seq<string>, idLike: string -> bool, usable: int): (r: seq<int>)
    ensures |r| == |headers|
  {
    SqueezedMinimums(BaseMinimums(headers, idLike), headers, idLike, usable, 0)
  }

  /** `idLike` stands for `prettyIsIDLikeName(normalizeColumnName(header))`. */
  method PrettyMinimumWidths(headers: seq<string>, idLike: string -> bool) returns (widths: array<int>)
    ensures fresh(widths) && widths[..] == BaseMinimums(headers, idLike)
  {
    widths := new int[|headers|];
    for i := 0 to |headers|
      invariant widths[..i] == BaseMinimums(headers, idLike)[..i]
    {
      widths[i] := Min(Max(|headers[i]|, 4), 12);
      if idLike(headers[i]) {
        widths[i] := Max(widths[i], 12);
      }
    }
  }

  lemma GiveUpNext(base: seq<int>, headers: seq<string>, idLike: string -> bool, i: nat)
    requires i < |base| == |headers|
    ensures var now := GiveUp(base, headers, idLike, i);
            GiveUp(base, headers, idLike, i + 1) == if idLike(headers[i]) then now else now[i := 1]
  {
  }

  method PrettyMinimumWidthsForWidth(headers: seq<string>, idLike: string -> bool, usableWidth: int) returns (r: seq<int>)
    ensures r == MinimumsFor(headers, idLike, usableWidth)
  {
    ghost var base := BaseMinimums(headers, idLike);
    var widths := PrettyMinimumWidths(headers, idLike);
    assert GiveUp(base, headers, idLike, 0) == base;
    var total := SumInts(widths[..]);
    if total <= usableWidth {
      return widths[..];
    }
    for i := 0 to |headers|
      invariant widths[..] == GiveUp(base, headers, idLike, i) && Sum(widths[..]) > usableWidth
      invariant SqueezedMinimums(base, headers, idLike, usableWidth, i) == MinimumsFor(headers, idLike, usableWidth)
    {
      GiveUpNext(base, headers, idLike, i);
      if idLike(headers[i]) {
        continue;
      }
      ghost var now := widths[..];
      widths[i] := 1;
      assert widths[..] == now[i := 1];
      total := SumInts(widths[..]);
      if total <= usableWidth {
        return widths[..];
      }
    }
    var minimum := 1;
    if usableWidth < |headers| {
      minimum := 0;
    }
    r := Levelled(widths, minimum);
  }

  method Levelled(widths: array<int>, minimum: int) returns (r: seq<int>)
    modifies widths
    ensures r == widths[..] == seq(widths.Length, _ => minimum)
  {
    for i := 0 to widths.Length
      invariant forall k :: 0 <= k < i ==> widths[k] == minimum
    {
      widths[i] := minimum;
    }
    r := widths[..];
  }

  lemma {:induction false} SumAtLeast(values: seq<int>, least: int)
    requires forall i :: 0 <= i < |values| ==> values[i] >= least
    ensures Sum(values) >= |values| * least
  {
    if values == [] {
    } else {
      SumAtLeast(values[..|values| - 1], least);
    }
  }

  lemma {:induction false} SumOfLevel(n: nat, level: int)
    ensures Sum(seq(n, _ => level)) == n * level
  {
    if n == 0 {
    } else {
      SumOfLevel(n - 1, level);
      assert seq(n, _ => level)[..n - 1] == seq(n - 1, _ => level);
    }
  }

  lemma {:induction false} SqueezedMinimumsFit(base: seq<int>, headers: seq<string>, idLike: string -> bool, usable: nat, k: nat)
    requires |base| == |headers| && k <= |base| && forall i :: 0 <= i < |base| ==> base[i] >= 1
    ensures var r := SqueezedMinimums(base, headers, idLike, usable, k);
            && Sum(r) <= usable
            && (forall i :: 0 <= i < |r| ==> r[i] >= if usable < |headers| then 0 else 1)
    decreases |base| - k
  {
    var squeezed := GiveUp(base, headers, idLike, k);
    if Sum(squeezed) > usable {
      if k < |base| {
        SqueezedMinimumsFit(base, headers, idLike, usable, k + 1);
      } else {
        SumOfLevel(|base|, if usable < |base| then 0 else 1);
      }
    }
  }

  /** The minimum of one column before any is given up: its header's width kept within 4 and 12, or 12 for identifiers. */
  ghost predicate IsBase(headers: seq<string>, idLike: string -> bool, i: nat, w: int)
    requires i < |headers|
  {
    w == if idLike(headers[i]) || |headers[i]| > 12 then 12 else if |headers[i]| < 4 then 4 else |headers[i]|
  }

  /** The first `k` columns that do not look like identifiers have been given up; all others keep their minimum. */
  ghost predicate GivenUp(headers: seq<string>, idLike: string -> bool, k: nat, r: seq<int>) {
    && |r| == |headers|
    && forall i :: 0 <= i < |r| ==> if i < k && !idLike(headers[i]) then r[i] == 1 else IsBase(headers, idLike, i, r[i])
  }

  lemma GiveUpIs(headers: seq<string>, idLike: string -> bool, k: nat, r: seq<int>)
    ensures GivenUp(headers, idLike, k, r) <==> r == GiveUp(BaseMinimums(headers, idLike), headers, idLike, k)
  {
  }

  ghost predicate TooWide(headers: seq<string>, idLike: string -> bool, usable: int, k: nat) {
    forall r :: GivenUp(headers, idLike, k, r) ==> Sum(r) > usable
  }

  lemma TooWideIs(headers: seq<string>, idLike: string -> bool, usable: int, k: nat)
    ensures TooWide(headers, idLike, usable, k) <==> Sum(GiveUp(BaseMinimums(headers, idLike), headers, idLike, k)) > usable
  {
    var squeezed := GiveUp(BaseMinimums(headers, idLike), headers, idLike, k);
    GiveUpIs(headers, idLike, k, squeezed);
    if Sum(squeezed) > usable {
      forall r | GivenUp(headers, idLike, k, r) ensures Sum(r) > usable {
        GiveUpIs(headers, idLike, k, r);
      }
    }
  }

  ghost predicate AllTooWide(headers: seq<string>, idLike: string -> bool, usable: int, n: int) {
    forall m :: 0 <= m < n ==> TooWide(headers, idLike, usable, m)
  }

  /** Giving up `n` columns is enough, and giving up fewer is not. */
  ghost predicate SettlesAt(headers: seq<string>, idLike: string -> bool, usable: int, r: seq<int>, n: nat) {
    && n <= |headers|
    && GivenUp(headers, idLike, n, r)
    && Sum(r) <= usable
    && AllTooWide(headers, idLike, usable, n)
  }

  /** Giving up every column that does not look like an identifier is not enough, and all columns are levelled. */
  ghost predicate Levels(headers: seq<string>, idLike: string -> bool, usable: int, r: seq<int>) {
    && AllTooWide(headers, idLike, usable, |headers| + 1)
    && |r| == |headers|
    && forall i :: 0 <= i < |r| ==> r[i] == if usable < |headers| then 0 else 1
  }

  lemma {:induction false} SqueezedMeans(headers: seq<string>, idLike: string -> bool, usable: int, k: nat)
    requires k <= |headers| && AllTooWide(headers, idLike, usable, k)
    ensures var r := SqueezedMinimums(BaseMinimums(headers, idLike), headers, idLike, usable, k);
            Levels(headers, idLike, usable, r) || exists n :: SettlesAt(headers, idLike, usable, r, n)
    decreases |headers| - k
  {
    var squeezed := GiveUp(BaseMinimums(headers, idLike), headers, idLike, k);
    TooWideIs(headers, idLike, usable, k);
    if Sum(squeezed) <= usable {
      GiveUpIs(headers, idLike, k, squeezed);
      assert SettlesAt(headers, idLike, usable, squeezed, k);
    } else if k < |headers| {
      SqueezedMeans(headers, idLike, usable, k + 1);
    }
  }

  /**
   * No more columns are given up than needed, from the left, and identifier columns last: their minimum shrinks only when
   * giving up all others is not enough.
   */
  lemma MinimumsMean(headers: seq<string>, idLike: string -> bool, usable: int)
    ensures var r := MinimumsFor(headers, idLike, usable);
            Levels(headers, idLike, usable, r) || exists n :: SettlesAt(headers, idLike, usable, r, n)
  {
    SqueezedMeans(headers, idLike, usable, 0);
  }

  /** The minimums always fit the usable width, and leave every column one cell exactly when there is room. */
  lemma MinimumsAlwaysFit(headers: seq<string>, idLike: string -> bool, usable: nat)
    ensures var r := MinimumsFor(headers, idLike, usable);
            && Sum(r) <= usable
            && (forall i :: 0 <= i < |r| ==> r[i] >= if usable < |headers| then 0 else 1)
  {
    SqueezedMinimumsFit(BaseMinimums(headers, idLike), headers, idLike, usable, 0);
  }

  function WidestLine(lines: seq<string>): nat {
    if lines == [] then 0 else Max(WidestLine(lines[..|lines| - 1]), |lines[|lines| - 1]|)
  }

  function MaxLineWidth(value: string): nat {
    WidestLine(Split(NormaliseNewlines(value, ' '), '\n'))
  }

  /** The widest line of column `i` in the header and the first `k` rows, kept within 4 and 64. */
  function NaturalWidth(headers: seq<string>, rows: seq<seq<string>>, i: nat, k: nat): (w: int)
    requires i < |headers| && k <= |rows|
    ensures 4 <= w <= 64
  {
    if k == 0 then Min(Max(MaxLineWidth(headers[i]), 4), 64)
    else
      var w := NaturalWidth(headers, rows, i, k - 1);
      if i >= |rows[k - 1]| then w else Min(Max(w, MaxLineWidth(rows[k - 1][i])), 64)
  }

  function NaturalWidths(headers: seq<string>, rows: seq<seq<string>>, k: nat): seq<int>
    requires k <= |rows|
  {
    seq(|headers|, i requires 0 <= i < |headers| => NaturalWidth(headers, rows, i, k))
  }

  /** Widens the columns for one more row; cells beyond the header are ignored. */
  method WidenForRow(widths: array<int>, headers: seq<string>, rows: seq<seq<string>>, k: nat)
    requires widths.Length == |headers| && k < |rows|
    requires forall c :: 0 <= c < |headers| ==> widths[c] == NaturalWidth(headers, rows, c, k)
    modifies widths
    ensures forall c :: 0 <= c < |headers| ==> widths[c] == NaturalWidth(headers, rows, c, k + 1)
  {
    var row := rows[k];
    for i := 0 to widths.Length
      invariant forall c :: i <= c < |headers| ==> widths[c] == NaturalWidth(headers, rows, c, k)
      invariant forall c :: 0 <= c < i ==> widths[c] == NaturalWidth(headers, rows, c, k + 1)
    {
      if i < |row| {
        widths[i] := Min(Max(widths[i], MaxLineWidth(row[i])), 64);
      }
    }
  }

  method PrettyNaturalWidths(headers: seq<string>, rows: seq<seq<string>>) returns (r: seq<int>)
    ensures r == NaturalWidths(headers, rows, |rows|)
  {
    var widths := new int[|headers|];
    for i := 0 to |headers|
      invariant forall c :: 0 <= c < i ==> widths[c] == NaturalWidth(headers, rows, c, 0)
    {
      widths[i] := Min(Max(MaxLineWidth(headers[i]), 4), 64);
    }
    for k := 0 to |rows|
      invariant forall c :: 0 <= c < |headers| ==> widths[c] == NaturalWidth(headers, rows, c, k)
    {
      WidenForRow(widths, headers, rows, k);
    }
    r := widths[..];
  }

  function FixedWidth(columns: nat, color: bool): nat {
    if columns == 0 then 0 else if color then 3 * columns + 1 else 2 * columns
  }

  lemma PositiveExactly(headers: seq<string>, natural: seq<int>, minimums: seq<int>, widths: seq<int>, level: int, usable: nat)
    requires |headers| == |natural| && WaterFilled(natural, minimums, widths, level)
    requires Sum(minimums) <= usable && forall i :: 0 <= i < |minimums| ==> minimums[i] >= if usable < |headers| then 0 else 1
    requires forall i :: 0 <= i < |natural| ==> natural[i] >= 4
    requires Sum(widths) == if Sum(natural) <= usable then Sum(natural) else Max(usable, Sum(Floors(natural, minimums)))
    ensures Sum(widths) == Min(Sum(natural), usable)
    ensures (forall i :: 0 <= i < |widths| ==> widths[i] >= 1) <==> usable >= |headers|
  {
    WaterFilledBounds(natural, minimums, widths, level);
    SumMonotone(Floors(natural, minimums), minimums);
    SumAtLeast(natural, 4);
    if forall i :: 0 <= i < |widths| ==> widths[i] >= 1 {
      SumAtLeast(widths, 1);
    }
  }

  /**
   * The columns of an enhanced table take exactly the smaller of their natural width and the usable width, share
   * the loss by water-filling, and each keeps at least one cell exactly when there are as many cells as columns,
   * which is what wrapping at hyphens needs.
   */
  method PrettyTableColumns(headers: seq<string>, rows: seq<seq<string>>, idLike: string -> bool, termWidth: int, color: bool)
    returns (widths: seq<int>)
    ensures |widths| == |headers|
    ensures var natural := NaturalWidths(headers, rows, |rows|);
            var chrome := if |headers| == 0 then 0 else if color then 3 * |headers| + 1 else 2 * |headers|;
            var usable := Max(0, termWidth - chrome);
            && Sum(widths) == Min(Sum(natural), usable)
            && (exists level :: WaterFilled(natural, MinimumsFor(headers, idLike, usable), widths, level))
            && ((forall i :: 0 <= i < |widths| ==> widths[i] >= 1) <==> usable >= |headers|)
  {
    var natural := PrettyNaturalWidths(headers, rows);
    var usable := Max(0, termWidth - FixedWidth(|natural|, color));
    var minimums := PrettyMinimumWidthsForWidth(headers, idLike, usable);
    widths := PrettyFitWidths(natural, minimums, usable);

    MinimumsAlwaysFit(headers, idLike, usable);
    ghost var level :| WaterFilled(natural, minimums, widths, level);
    PositiveExactly(headers, natural, minimums, widths, level, usable);
  }

  /** How wide the rendered table is: two cells of padding for each column, or bars and padding when it is coloured. */
  function ViewWidth(widths: seq<int>): int {
    if widths == [] then 0 else ViewWidth(widths[..|widths| - 1]) + (widths[|widths| - 1] + 2)
  }

  function BubbleViewWidth(widths: seq<int>): int {
    FixedWidth(|widths|, true) + Sum(widths)
  }

  lemma {:induction false} ViewWidthIs(widths: seq<int>)
    ensures ViewWidth(widths) == 2 * |widths| + Sum(widths)
  {
    if widths == [] {
    } else {
      ViewWidthIs(widths[..|widths| - 1]);
    }
  }

  /** A table with columns that take all of the usable width is as wide as the terminal, unless its natural width is smaller. */
  lemma {:induction false} ViewFits(widths: seq<int>, natural: seq<int>, termWidth: int, color: bool)
    requires widths != [] && |natural| == |widths| && termWidth >= FixedWidth(|widths|, color)
    requires Sum(widths) == Min(Sum(natural), Max(0, termWidth - FixedWidth(|widths|, color)))
    ensures color ==> BubbleViewWidth(widths) == Min(BubbleViewWidth(natural), termWidth)
    ensures !color ==> ViewWidth(widths) == Min(ViewWidth(natural), termWidth)
  {
    ViewWidthIs(widths);
    ViewWidthIs(natural);
  }
}
