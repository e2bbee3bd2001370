/** Ordering of service versions: by numeric parts, then by spelling. */
module Versions {
  import opened Text
  import opened Orders

  /** The number that a dotted part stands for, read by `number`; a missing part counts as zero. */
  function PartAt(number: string -> int, parts: seq<string>, i: nat): int {
    if i < |parts| then number(parts[i]) else 0
  }

  function Parts(version: string): seq<string> {
    Split(version, '.')
  }

  /** `left` is numerically smaller at the first of the parts from `i` on where the two differ. */
  function LessFrom(number: string -> int, left: string, right: string, i: nat): bool
    decreases |Parts(left)| + |Parts(right)| - i
  {
    if i >= |Parts(left)| && i >= |Parts(right)| then Before(left, right)
    else
      var l, r := PartAt(number, Parts(left), i), PartAt(number, Parts(right), i);
      if l != r then l < r else LessFrom(number, left, right, i + 1)
  }

  predicate Less(number: string -> int, left: string, right: string) {
    LessFrom(number, left, right, 0)
  }

  /** `number` stands for reading a part with `fmt.Sscanf` and "%d", which leaves 0 when there is no number. */
  method VersionLess(number: string -> int, left: string, right: string) returns (less: bool)
    ensures less == Less(number, left, right)
  {
    var leftParts, rightParts := Split(left, '.'), Split(right, '.');
    var maxParts := |leftParts|;
    if |rightParts| > maxParts {
      maxParts := |rightParts|;
    }
    for i := 0 to maxParts
      invariant LessFrom(number, left, right, i) == Less(number, left, right)
    {
      var leftPart, rightPart := 0, 0;
      if i < |leftParts| {
        leftPart := number(leftParts[i]);
      }
      if i < |rightParts| {
        rightPart := number(rightParts[i]);
      }
      if leftPart != rightPart {
        return leftPart < rightPart;
      }
    }
    less := Before(left, right);
  }

  // ---------- the order, without the loop ----------

  /** The two versions agree on the parts before `n` (missing ones are zero), and `left` is smaller at part `n`. */
  ghost predicate SmallerAt(number: string -> int, left: string, right: string, n: nat) {
    && (forall i: nat :: i < n ==> PartAt(number, Parts(left), i) == PartAt(number, Parts(right), i))
    && PartAt(number, Parts(left), n) < PartAt(number, Parts(right), n)
  }

  ghost predicate SameNumbers(number: string -> int, left: string, right: string) {
    forall i: nat :: PartAt(number, Parts(left), i) == PartAt(number, Parts(right), i)
  }

  lemma {:induction false} LessFromMeans(number: string -> int, left: string, right: string, i: nat)
    requires forall j: nat :: j < i ==> PartAt(number, Parts(left), j) == PartAt(number, Parts(right), j)
    ensures LessFrom(number, left, right, i) <==>
            (exists n :: SmallerAt(number, left, right, n)) || (SameNumbers(number, left, right) && Before(left, right))
    decreases |Parts(left)| + |Parts(right)| - i
  {
    if i < |Parts(left)| || i < |Parts(right)| {
      var l, r := PartAt(number, Parts(left), i), PartAt(number, Parts(right), i);
      if l == r {
        LessFromMeans(number, left, right, i + 1);
      } else if l < r {
        assert SmallerAt(number, left, right, i);
      }
    } else {
      assert forall j: nat :: j >= i ==> PartAt(number, Parts(left), j) == 0 == PartAt(number, Parts(right), j);
    }
  }

  /** What the comparison decides: the first differing number, or the spelling when no number differs. */
  lemma LessMeans(number: string -> int, left: string, right: string)
    ensures Less(number, left, right) <==>
            (exists n :: SmallerAt(number, left, right, n)) || (SameNumbers(number, left, right) && Before(left, right))
  {
    LessFromMeans(number, left, right, 0);
  }

  lemma FirstDifference(number: string -> int, left: string, right: string, i: nat) returns (n: nat)
    requires PartAt(number, Parts(left), i) != PartAt(number, Parts(right), i)
    ensures SmallerAt(number, left, right, n) || SmallerAt(number, right, left, n)
  {
    n := 0;
    while PartAt(number, Parts(left), n) == PartAt(number, Parts(right), n)
      invariant n <= i && forall j: nat :: j < n ==> PartAt(number, Parts(left), j) == PartAt(number, Parts(right), j)
      decreases i - n
    {
      n := n + 1;
    }
  }

  lemma SmallerOrSame(number: string -> int, x: string, y: string, z: string, m: nat, n: nat)
    requires SmallerAt(number, x, y, m) && SmallerAt(number, y, z, n)
    ensures SmallerAt(number, x, z, if m < n then m else n)
  {
    var k := if m < n then m else n;
    forall i: nat | i < k ensures PartAt(number, Parts(x), i) == PartAt(number, Parts(z), i) {
      assert PartAt(number, Parts(x), i) == PartAt(number, Parts(y), i);
    }
  }

  lemma SameShifts(number: string -> int, x: string, y: string, z: string, n: nat)
    requires SameNumbers(number, x, y)
    ensures SmallerAt(number, x, z, n) <==> SmallerAt(number, y, z, n)
    ensures SmallerAt(number, z, x, n) <==> SmallerAt(number, z, y, n)
  {
  }

  /** However parts are read, the comparison is a strict total order on all strings. */
  lemma StrictTotalOrder(number: string -> int, x: string, y: string, z: string)
    ensures !Less(number, x, x)
    ensures !(Less(number, x, y) && Less(number, y, x))
    ensures x != y ==> Less(number, x, y) || Less(number, y, x)
    ensures Less(number, x, y) && Less(number, y, z) ==> Less(number, x, z)
  {
    LessMeans(number, x, x);
    LessMeans(number, x, y);
    LessMeans(number, y, x);
    BeforeTrichotomy(x, x);
    BeforeTrichotomy(x, y);
    if !SameNumbers(number, x, y) {
      var i: nat :| PartAt(number, Parts(x), i) != PartAt(number, Parts(y), i);
      var n := FirstDifference(number, x, y, i);
    }
    if Less(number, x, y) && Less(number, y, x) {
      Transitive(number, x, y, x);
    }
    if Less(number, x, y) && Less(number, y, z) {
      Transitive(number, x, y, z);
    }
  }

  lemma Transitive(number: string -> int, x: string, y: string, z: string)
    requires Less(number, x, y) && Less(number, y, z)
    ensures Less(number, x, z)
  {
    LessMeans(number, x, y);
    LessMeans(number, y, z);
    LessMeans(number, x, z);
    BeforeTransitive(x, y, z);
    if SameNumbers(number, x, y) {
      if !SameNumbers(number, y, z) {
        var n :| SmallerAt(number, y, z, n);
        SameShifts(number, x, y, z, n);
      }
    } else {
      var m :| SmallerAt(number, x, y, m);
      if SameNumbers(number, y, z) {
        SameShifts(number, y, z, x, m);
      } else {
        var n :| SmallerAt(number, y, z, n);
        SmallerOrSame(number, x, y, z, m, n);
      }
    }
  }

  lemma LongerSplits(v: string, p: string)
    requires '.' !in p
    ensures Parts(v + ['.'] + p) == Parts(v) + [p]
  {
    SplitAround(v, p, '.');
    SplitNone(p, '.');
  }

  lemma {:induction false} PrefixBefore(v: string, more: string)
    requires more != ""
    ensures Before(v, v + more) && !Before(v + more, v)
  {
    if v == "" {
      assert v + more == more;
    } else {
      PrefixBefore(v[1..], more);
      assert (v + more)[0] == v[0] && (v + more)[1..] == v[1..] + more;
    }
  }

  /** A missing part counts as zero: a version goes before one with a further part exactly when that is not negative. */
  lemma LongerVersion(number: string -> int, v: string, p: string)
    requires '.' !in p
    ensures Less(number, v, v + ['.'] + p) <==> number(p) >= 0
    ensures Less(number, v + ['.'] + p, v) <==> number(p) < 0
  {
    var w, n := v + ['.'] + p, |Parts(v)|;
    LongerSplits(v, p);
    assert w == v + (['.'] + p);
    PrefixBefore(v, ['.'] + p);
    LessMeans(number, v, w);
    LessMeans(number, w, v);
    assert forall i: nat :: i < n ==> Parts(w)[i] == Parts(v)[i];
    assert PartAt(number, Parts(w), n) == number(p) && PartAt(number, Parts(v), n) == 0;
    if number(p) > 0 {
      assert SmallerAt(number, v, w, n);
    } else if number(p) < 0 {
      assert SmallerAt(number, w, v, n);
    }
  }
}
