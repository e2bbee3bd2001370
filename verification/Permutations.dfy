/** Permutations of sequences, and multisets as sequences up to permutation. */
module Permutations {

  ghost predicate IsPermutation(p: seq<nat>, n: nat) {
    && |p| == n
    && (forall i :: 0 <= i < n ==> p[i] < n)
    && (forall i, j :: 0 <= i < j < n ==> p[i] != p[j])
  }

  /** A sequence without its element at `r`. */
  function Without<T>(b: seq<T>, r: nat): (rest: seq<T>)
    requires r < |b|
    ensures multiset(b) == multiset(rest) + multiset{b[r]}
    ensures multiset(rest) == multiset(b) - multiset{b[r]}
    ensures |rest| == |b| - 1 && forall i :: 0 <= i < |b| && i != r ==> b[i] == rest[if i < r then i else i - 1]
  {
    assert b == b[..r] + [b[r]] + b[r + 1..];
    b[..r] + b[r + 1..]
  }

  /** `p` sends each element of `a` to an equal element of `b`. */
  ghost predicate Matches<T(!new)>(a: seq<T>, b: seq<T>, p: seq<nat>) {
    |a| == |b| && IsPermutation(p, |a|) && forall i :: 0 <= i < |a| ==> a[i] == b[p[i]]
  }

  lemma {:induction false} MatchedMultisets<T(!new)>(a: seq<T>, b: seq<T>, p: seq<nat>)
    requires Matches(a, b, p)
    ensures multiset(a) == multiset(b)
  {
    if a == [] {
    } else {
      var n := |a| - 1;
      var r := p[n];
      var p' := seq(n, i requires 0 <= i < n => if p[i] < r then p[i] else p[i] - 1);
      MatchedMultisets(Without(a, n), Without(b, r), p');
    }
  }

  lemma ExtendMatch<T(!new)>(a: seq<T>, b: seq<T>, r: nat, p: seq<nat>) returns (q: seq<nat>)
    requires a != [] && r < |b| && b[r] == a[|a| - 1]
    requires Matches(Without(a, |a| - 1), Without(b, r), p)
    ensures Matches(a, b, q)
  {
    var n := |a| - 1;
    q := seq(n, i requires 0 <= i < n => if p[i] < r then p[i] else p[i] + 1) + [r];
    forall i | 0 <= i < |a| ensures a[i] == b[q[i]] {
      if i < n {
        assert a[i] == Without(a, n)[i] == Without(b, r)[p[i]];
      }
    }
  }

  lemma {:induction false} MultisetsMatch<T(!new)>(a: seq<T>, b: seq<T>) returns (p: seq<nat>)
    requires multiset(a) == multiset(b)
    ensures Matches(a, b, p)
  {
    assert |a| == |multiset(a)| == |multiset(b)| == |b|;
    if a == [] {
      p := [];
    } else {
      assert a[|a| - 1] in multiset(b);
      var r :| 0 <= r < |b| && b[r] == a[|a| - 1];
      p := MultisetsMatch(Without(a, |a| - 1), Without(b, r));
      p := ExtendMatch(a, b, r, p);
    }
  }
}
