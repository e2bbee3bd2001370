/** Fitting a plain table to the terminal: wide columns share what the narrow ones leave. */
module CliffWidths {
  import opened ColumnWidths

  /** The space taken by the first `i` columns that are within their equal share. */
  function Kept(widths: seq<int>, optimal: int, i: nat): int
    requires i <= |widths|
  {
    if i == 0 then 0 else Kept(widths, optimal, i - 1) + if widths[i - 1] <= optimal then widths[i - 1] else 0
  }

  /** How many of the first `i` columns are wider than their equal share. */
  function Wide(widths: seq<int>, optimal: int, i: nat): nat
    requires i <= |widths|
  {
    if i == 0 then 0 else Wide(widths, optimal, i - 1) + if widths[i - 1] <= optimal then 0 else 1
  }

  function DisplayWidth(widths: seq<int>): int {
    1 + 3 * |widths| + Sum(widths)
  }

  function UsableWidth(termWidth: int, fieldCount: nat): nat {
    Max(0, termWidth - 1 - 3 * fieldCount)
  }

  /** The equal share of one column. */
  function OptimalWidth(termWidth: int, fieldCount: nat): nat {
    if fieldCount == 0 then 0 else UsableWidth(termWidth, fieldCount) / fieldCount
  }

  /** The share of one wide column; Go's truncating division agrees because the dividend is never negative. */
  function Share(widths: seq<int>, termWidth: int): int {
    var optimal := OptimalWidth(termWidth, |widths|);
    var wide := Wide(widths, optimal, |widths|);
    if wide == 0 then 0 else (UsableWidth(termWidth, |widths|) - Kept(widths, optimal, |widths|)) / wide
  }

  method CliffWidthInfo(termWidth: int, fieldCount: nat) returns (usable: int, optimal: int)
    ensures usable == UsableWidth(termWidth, fieldCount) && optimal == OptimalWidth(termWidth, fieldCount)
    ensures usable == if termWidth > 1 + 3 * fieldCount then termWidth - 1 - 3 * fieldCount else 0
    ensures if fieldCount == 0 then optimal == 0 else fieldCount * optimal <= usable < fieldCount * (optimal + 1)
  {
    usable := Max(0, termWidth - 1 - 3 * fieldCount);
    if fieldCount == 0 {
      return usable, 0;
    }
    optimal := usable / fieldCount;
    DivisionBounds(usable, fieldCount);
  }

  /** `fields` lists the wide columns from left to right. */
  ghost predicate ListsWide(fields: seq<nat>, widths: seq<int>, optimal: int, n: nat)
    requires n <= |widths|
  {
    && (forall k :: 0 <= k < |fields| ==> fields[k] < n && widths[fields[k]] > optimal)
    && (forall k, l :: 0 <= k < l < |fields| ==> fields[k] < fields[l])
    && (forall i :: 0 <= i < n && widths[i] > optimal ==> i in fields)
  }

  method CliffShrinkFields(usableTotalWidth: int, optimalWidth: int, widths: seq<int>)
    returns (shrinkFields: seq<nat>, shrinkRemaining: int)
    ensures ListsWide(shrinkFields, widths, optimalWidth, |widths|)
    ensures |shrinkFields| == Wide(widths, optimalWidth, |widths|)
    ensures shrinkRemaining == usableTotalWidth - Kept(widths, optimalWidth, |widths|)
  {
    shrinkFields := [];
    shrinkRemaining := usableTotalWidth;
    for i := 0 to |widths|
      invariant ListsWide(shrinkFields, widths, optimalWidth, i)
      invariant |shrinkFields| == Wide(widths, optimalWidth, i)
      invariant shrinkRemaining == usableTotalWidth - Kept(widths, optimalWidth, i)
    {
      if widths[i] <= optimalWidth {
        shrinkRemaining := shrinkRemaining - widths[i];
        continue;
      }
      shrinkFields := shrinkFields + [i];
    }
  }

  lemma {:induction false} KeptBound(widths: seq<int>, optimal: nat, i: nat)
    requires i <= |widths|
    ensures Wide(widths, optimal, i) <= i
    ensures Kept(widths, optimal, i) <= (i - Wide(widths, optimal, i)) * optimal
  {
    if i == 0 {
    } else {
      KeptBound(widths, optimal, i - 1);
    }
  }

  lemma OptimalFits(termWidth: int, n: nat)
    ensures n * OptimalWidth(termWidth, n) <= UsableWidth(termWidth, n)
  {
    if n > 0 {
      DivisionBounds(UsableWidth(termWidth, n), n);
    }
  }

  lemma LeftAtLeast(widths: seq<int>, termWidth: int)
    ensures var n, optimal := |widths|, OptimalWidth(termWidth, |widths|);
            UsableWidth(termWidth, n) - Kept(widths, optimal, n) >= Wide(widths, optimal, n) * optimal
  {
    var n, optimal := |widths|, OptimalWidth(termWidth, |widths|);
    OptimalFits(termWidth, n);
    KeptBound(widths, optimal, n);
    Distribute(n, Wide(widths, optimal, n), optimal);
  }

  /** The wide columns find at least their equal share left over, despite two rounded divisions. */
  lemma ShareAtLeastOptimal(widths: seq<int>, termWidth: int)
    ensures var n, optimal := |widths|, OptimalWidth(termWidth, |widths|);
            && UsableWidth(termWidth, n) - Kept(widths, optimal, n) >= Wide(widths, optimal, n) * optimal
            && (Wide(widths, optimal, n) > 0 ==> Share(widths, termWidth) >= optimal)
  {
    var n, optimal := |widths|, OptimalWidth(termWidth, |widths|);
    var wide := Wide(widths, optimal, n);
    LeftAtLeast(widths, termWidth);
    if wide > 0 {
      QuotientAtLeast(UsableWidth(termWidth, n) - Kept(widths, optimal, n), wide, optimal);
    }
  }

  /** The share is as large as it can be: no cell more for each wide column would fit. */
  lemma {:induction false} ShareIsLargest(widths: seq<int>, termWidth: int)
    requires Wide(widths, OptimalWidth(termWidth, |widths|), |widths|) > 0
    ensures var n, optimal := |widths|, OptimalWidth(termWidth, |widths|);
            var wide, left := Wide(widths, optimal, n), UsableWidth(termWidth, n) - Kept(widths, optimal, n);
            wide * Share(widths, termWidth) <= left < wide * (Share(widths, termWidth) + 1)
  {
    var n, optimal := |widths|, OptimalWidth(termWidth, |widths|);
    DivisionBounds(UsableWidth(termWidth, n) - Kept(widths, optimal, n), Wide(widths, optimal, n));
  }

  lemma Distribute(n: int, k: int, q: int)
    ensures n * q == (n - k) * q + k * q
  {
  }

  lemma TimesMonotone(b: nat, x: int, y: int)
    requires x <= y
    ensures b * x <= b * y
  {
  }

  lemma QuotientAtLeast(a: int, b: int, q: int)
    requires b > 0 && a >= b * q
    ensures a / b >= q
  {
    if a / b < q {
      TimesMonotone(b, a / b + 1, q);
    }
  }

  lemma {:induction false} AllNarrow(widths: seq<int>, optimal: int, i: nat)
    requires i <= |widths| && Wide(widths, optimal, i) == 0
    ensures Sum(widths[..i]) == Kept(widths, optimal, i)
  {
    if i == 0 {
    } else {
      AllNarrow(widths, optimal, i - 1);
      assert widths[..i][..i - 1] == widths[..i - 1];
    }
  }

  /** Pigeonhole: when borders alone fit the terminal, a table that is too wide has a wide column. */
  lemma SomeColumnIsWide(widths: seq<int>, termWidth: int)
    requires DisplayWidth(widths) > termWidth >= 1 + 3 * |widths|
    ensures Wide(widths, OptimalWidth(termWidth, |widths|), |widths|) > 0
  {
    var n, optimal := |widths|, OptimalWidth(termWidth, |widths|);
    if Wide(widths, optimal, n) == 0 {
      AllNarrow(widths, optimal, n);
      assert widths[..n] == widths;
      ShareAtLeastOptimal(widths, termWidth);
    }
  }

  /** What fitting puts in column `i`: narrow columns stay, wide ones get a share, the last of them the rest. */
  ghost predicate Fitted(widths: seq<int>, fitted: seq<int>, optimal: int, share: int, last: nat, rest: int) {
    && |fitted| == |widths| && last < |widths| && widths[last] > optimal
    && (forall i :: last < i < |widths| ==> widths[i] <= optimal)
    && (forall i :: 0 <= i < |widths| ==>
          fitted[i] == if widths[i] <= optimal then widths[i] else if i == last then rest else share)
  }

  ghost predicate SharedOut(widths: seq<int>, fitted: seq<int>, optimal: int, share: int, rest: int) {
    exists last :: Fitted(widths, fitted, optimal, share, last, rest)
  }

  lemma {:induction false} FittedSum(widths: seq<int>, fitted: seq<int>, optimal: int, share: int, last: nat, rest: int, i: nat)
    requires Fitted(widths, fitted, optimal, share, last, rest) && i <= |widths|
    ensures Sum(fitted[..i]) == Kept(widths, optimal, i) +
            if i <= last then Wide(widths, optimal, i) * share else (Wide(widths, optimal, i) - 1) * share + rest
  {
    if i == 0 {
    } else {
      FittedSum(widths, fitted, optimal, share, last, rest, i - 1);
      assert fitted[..i][..i - 1] == fitted[..i - 1];
    }
  }

  /** `k` shares and the rest take no less than `left`, and exactly `left` exactly when the share is no less than the floor. */
  lemma FittedTotal(left: int, k: nat, share: int, minWidth: int)
    requires (k + 1) * share <= left < (k + 1) * (share + 1)
    ensures var total := k * Max(minWidth, share) + Max(minWidth, left - k * share);
            total >= left && (total == left <==> minWidth <= share)
  {
    if minWidth > share {
      assert k * minWidth == k * share + k * (minWidth - share);
      assert k > 0 ==> k * (minWidth - share) > 0;
    }
  }

  /** The columns listed as wide hold the share, the last of them the rest, and all others are untouched. */
  ghost predicate HandedOut(widths: seq<int>, r: seq<int>, optimal: int, fields: seq<nat>, share: int, rest: int)
    requires ListsWide(fields, widths, optimal, |widths|) && fields != []
  {
    && |r| == |widths| && r[fields[|fields| - 1]] == rest
    && (forall l :: 0 <= l < |fields| - 1 ==> r[fields[l]] == share)
    && (forall i :: 0 <= i < |widths| && widths[i] <= optimal ==> r[i] == widths[i])
  }

  lemma HandedOutFits(widths: seq<int>, r: seq<int>, optimal: int, fields: seq<nat>, share: int, rest: int)
    requires ListsWide(fields, widths, optimal, |widths|) && fields != [] && HandedOut(widths, r, optimal, fields, share, rest)
    ensures Fitted(widths, r, optimal, share, fields[|fields| - 1], rest)
  {
    var last := fields[|fields| - 1];
    forall i | 0 <= i < |widths| && widths[i] > optimal ensures i <= last && r[i] == if i == last then rest else share {
      var l :| 0 <= l < |fields| && fields[l] == i;
    }
  }

  /** Hands each wide column but the last its share, and the last one the rest. */
  method ShareOut(widths: seq<int>, optimal: int, shrinkFields: seq<nat>, left: int, minWidth: int) returns (r: seq<int>)
    requires shrinkFields != [] && ListsWide(shrinkFields, widths, optimal, |widths|)
    ensures var k := |shrinkFields| - 1;
            var share := left / |shrinkFields|;
            Fitted(widths, r, optimal, Max(minWidth, share), shrinkFields[k], Max(minWidth, left - k * share))
  {
    var fitted := new int[|widths|](i requires 0 <= i < |widths| => widths[i]);
    var shrinkTo, shrinkRemaining := left / |shrinkFields|, left;
    for k := 0 to |shrinkFields| - 1
      invariant shrinkRemaining == left - k * shrinkTo
      invariant forall l :: 0 <= l < k ==> fitted[shrinkFields[l]] == Max(minWidth, shrinkTo)
      invariant forall i :: 0 <= i < |widths| && widths[i] <= optimal ==> fitted[i] == widths[i]
    {
      fitted[shrinkFields[k]] := Max(minWidth, shrinkTo);
      shrinkRemaining := shrinkRemaining - shrinkTo;
    }
    fitted[shrinkFields[|shrinkFields| - 1]] := Max(minWidth, shrinkRemaining);
    r := fitted[..];
    HandedOutFits(widths, r, optimal, shrinkFields, Max(minWidth, shrinkTo), Max(minWidth, shrinkRemaining));
  }

  lemma DivisionBounds(a: int, d: int)
    requires d > 0
    ensures d * (a / d) <= a < d * (a / d + 1)
  {
    assert a == d * (a / d) + a % d;
  }

  lemma SharesNonNegative(left: int, wide: nat)
    requires left >= 0 && wide > 0
    ensures left / wide >= 0 && left - (wide - 1) * (left / wide) >= 0
  {
    var q := left / wide;
    DivisionBounds(left, wide);
    OneLess(wide, q);
    QuotientAtLeast(left, wide, 0);
  }

  lemma OneLess(d: int, q: int)
    ensures (d - 1) * q == d * q - q
  {
  }

  lemma FittedSumTotal(widths: seq<int>, r: seq<int>, optimal: int, left: int, minWidth: int, last: nat)
    requires Wide(widths, optimal, |widths|) > 0
    requires var k := Wide(widths, optimal, |widths|) - 1;
             var share := left / (k + 1);
             Fitted(widths, r, optimal, Max(minWidth, share), last, Max(minWidth, left - k * share))
    ensures Sum(r) >= Kept(widths, optimal, |widths|) + left
    ensures Sum(r) == Kept(widths, optimal, |widths|) + left <==> minWidth <= left / Wide(widths, optimal, |widths|)
  {
    var n, k := |widths|, Wide(widths, optimal, |widths|) - 1;
    var share := left / (k + 1);
    assert r[..n] == r;
    DivisionBounds(left, k + 1);
    FittedTotal(left, k, share, minWidth);
    FittedSum(widths, r, optimal, Max(minWidth, share), last, Max(minWidth, left - k * share), n);
  }

  /**
   * A table wider than the terminal keeps its narrow columns, never comes out narrower than the terminal, and comes
   * out exactly as wide exactly when the borders fit and the share of a wide column is no less than `minWidth`.
   */
  method AssignCliffStyleMaxWidths(widths: seq<int>, termWidth: int, minWidth: int) returns (r: seq<int>)
    requires forall i :: 0 <= i < |widths| ==> widths[i] >= 0
    ensures |r| == |widths| && forall i :: 0 <= i < |r| ==> r[i] >= 0
    ensures termWidth <= 0 || DisplayWidth(widths) <= termWidth ==> r == widths
    ensures DisplayWidth(widths) > termWidth > 0 ==>
              var optimal := OptimalWidth(termWidth, |widths|);
              var share := Share(widths, termWidth);
              var wide := Wide(widths, optimal, |widths|);
              var left := UsableWidth(termWidth, |widths|) - Kept(widths, optimal, |widths|);
              && (wide == 0 ==> r == widths)
              && (wide > 0 ==> SharedOut(widths, r, optimal, Max(minWidth, share), Max(minWidth, left - (wide - 1) * share)))
              && DisplayWidth(r) >= termWidth
              && (DisplayWidth(r) == termWidth <==> termWidth >= 1 + 3 * |widths| && minWidth <= share)
  {
    var display := SumInts(widths);
    if termWidth <= 0 || 1 + 3 * |widths| + display <= termWidth {
      return widths;
    }
    var fieldCount := |widths|;
    var usable, optimal := CliffWidthInfo(termWidth, fieldCount);
    var shrinkFields, shrinkRemaining := CliffShrinkFields(usable, optimal, widths);
    ShareAtLeastOptimal(widths, termWidth);
    if |shrinkFields| == 0 {
      if termWidth >= 1 + 3 * |widths| {
        SomeColumnIsWide(widths, termWidth);
      }
      return widths;
    }

    r := ShareOut(widths, optimal, shrinkFields, shrinkRemaining, minWidth);
    FittedSumTotal(widths, r, optimal, shrinkRemaining, minWidth, shrinkFields[|shrinkFields| - 1]);
    SharesNonNegative(shrinkRemaining, |shrinkFields|);
  }

  /** Enough room for `minWidth` in every column is enough for an exact fit. */
  lemma RoomMeansExact(widths: seq<int>, termWidth: int, minWidth: int)
    requires DisplayWidth(widths) > termWidth >= 1 + 3 * |widths| + |widths| * minWidth && termWidth >= 1 + 3 * |widths|
    ensures minWidth <= Share(widths, termWidth)
  {
    SomeColumnIsWide(widths, termWidth);
    ShareAtLeastOptimal(widths, termWidth);
    QuotientAtLeast(UsableWidth(termWidth, |widths|), |widths|, minWidth);
  }

  /** Two columns of 40 on a terminal of 20 cannot be fitted exactly when each must keep 16. */
  lemma MinWidthBeyondShare(widths: seq<int>)
    requires widths == [40, 40]
    ensures DisplayWidth(widths) > 20 >= 1 + 3 * |widths| && 16 > Share(widths, 20)
  {
    var optimal := OptimalWidth(20, |widths|);
    assert UsableWidth(20, 2) == 13 && optimal == 6;
    assert Wide(widths, optimal, 1) == 1 && Wide(widths, optimal, 2) == 2;
    assert Kept(widths, optimal, 1) == 0 && Kept(widths, optimal, 2) == 0;
    assert widths[..1] == [40] && [40][..0] == [];
    assert Sum([40]) == 40 && Sum(widths) == 80;
  }
}
