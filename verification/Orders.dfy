/** Go's string order, and the library sorts that the program relies on. */
module Orders {

  /** `s < t` for Go strings.  Code-point order equals the byte order of valid UTF-8. */
  predicate Before(s: string, t: string) {
    t != [] && (s == [] || s[0] < t[0] || (s[0] == t[0] && Before(s[1..], t[1..])))
  }

  predicate NotAfter(s: string, t: string) {
    !Before(t, s)
  }

  lemma {:induction false} BeforeTrichotomy(s: string, t: string)
    ensures !(Before(s, t) && Before(t, s))
    ensures s == t <==> !Before(s, t) && !Before(t, s)
  {
    if s != [] && t != [] {
      BeforeTrichotomy(s[1..], t[1..]);
      assert s == [s[0]] + s[1..] && t == [t[0]] + t[1..];
    }
  }

  lemma {:induction false} BeforeTransitive(s: string, t: string, u: string)
    ensures Before(s, t) && Before(t, u) ==> Before(s, u)
    ensures NotAfter(s, t) && NotAfter(t, u) ==> NotAfter(s, u)
  {
    if s != [] && t != [] && u != [] {
      BeforeTransitive(s[1..], t[1..], u[1..]);
    }
  }

  /** The strings agree up to place `i`, and there the first has the smaller character. */
  ghost predicate DiffersAt(s: string, t: string, i: nat) {
    i < |s| && i < |t| && s[..i] == t[..i] && s[i] < t[i]
  }

  /** The first character that differs decides, and a proper prefix comes first. */
  lemma {:induction false} BeforeMeans(s: string, t: string)
    ensures Before(s, t) <==> (s <= t && s != t) || exists i: nat :: DiffersAt(s, t, i)
  {
    if s != [] && t != [] && s[0] == t[0] {
      BeforeMeans(s[1..], t[1..]);
      assert s == [s[0]] + s[1..] && t == [t[0]] + t[1..];
      if i: nat :| DiffersAt(s[1..], t[1..], i) {
        assert s[..i + 1] == [s[0]] + s[1..][..i] && t[..i + 1] == [t[0]] + t[1..][..i];
        assert DiffersAt(s, t, i + 1);
      }
      if i: nat :| DiffersAt(s, t, i) {
        assert s[1..][..i - 1] == s[..i][1..] && t[1..][..i - 1] == t[..i][1..];
        assert DiffersAt(s[1..], t[1..], i - 1);
      }
    } else if s != [] && t != [] {
      if s[0] < t[0] {
        assert DiffersAt(s, t, 0);
      }
      if i: nat :| DiffersAt(s, t, i) {
        assert i > 0 ==> s[..i][0] == t[..i][0];
      }
    }
  }

  // ---------- total orders and sorted sequences ----------

  ghost predicate TotalOrder<T(!new)>(le: (T, T) -> bool) {
    && (forall x, y :: le(x, y) || le(y, x))
    && (forall x, y :: le(x, y) && le(y, x) ==> x == y)
    && (forall x, y, z :: le(x, y) && le(y, z) ==> le(x, z))
  }

  ghost predicate SortedBy<T>(le: (T, T) -> bool, s: seq<T>) {
    forall i, j :: 0 <= i < j < |s| ==> le(s[i], s[j])
  }

  ghost predicate NoDuplicates<T>(s: seq<T>) {
    forall i, j :: 0 <= i < j < |s| ==> s[i] != s[j]
  }

  lemma NotAfterIsTotal()
    ensures TotalOrder(NotAfter)
  {
    forall s, t ensures NotAfter(s, t) || NotAfter(t, s)
      ensures NotAfter(s, t) && NotAfter(t, s) ==> s == t
    {
      BeforeTrichotomy(s, t);
    }
    forall s, t, u ensures NotAfter(s, t) && NotAfter(t, u) ==> NotAfter(s, u) {
      BeforeTransitive(s, t, u);
    }
  }

  // ---------- sort.Slice, sort.SliceStable and sort.Strings ----------

  function Insert<T>(le: (T, T) -> bool, x: T, s: seq<T>): (r: seq<T>)
    ensures multiset(r) == multiset{x} + multiset(s)
  {
    if s == [] || le(x, s[0]) then [x] + s
    else
      assert s == [s[0]] + s[1..];
      [s[0]] + Insert(le, x, s[1..])
  }

  function Sort<T>(le: (T, T) -> bool, s: seq<T>): (r: seq<T>)
    ensures multiset(r) == multiset(s) && |r| == |s|
  {
    if s == [] then []
    else
      assert s == [s[0]] + s[1..];
      var r := Insert(le, s[0], Sort(le, s[1..]));
      assert |r| == |multiset(r)| == |multiset(s)|;
      r
  }

  function SortStrings(s: seq<string>): (r: seq<string>)
    ensures multiset(r) == multiset(s) && |r| == |s|
  {
    Sort(NotAfter, s)
  }

  lemma {:induction false} InsertSorts<T(!new)>(le: (T, T) -> bool, x: T, s: seq<T>)
    requires TotalOrder(le) && SortedBy(le, s)
    ensures SortedBy(le, Insert(le, x, s))
  {
    if s != [] && !le(x, s[0]) {
      InsertSorts(le, x, s[1..]);
      var r := Insert(le, x, s[1..]);
      forall j | 0 <= j < |r| ensures le(s[0], r[j]) {
        assert r[j] in multiset(r);
        assert r[j] == x || r[j] in s[1..];
      }
    }
  }

  lemma {:induction false} SortSorts<T(!new)>(le: (T, T) -> bool, s: seq<T>)
    requires TotalOrder(le)
    ensures SortedBy(le, Sort(le, s))
  {
    if s == [] {
    } else {
      SortSorts(le, s[1..]);
      InsertSorts(le, s[0], Sort(le, s[1..]));
    }
  }

  lemma SameFirst<T(!new)>(le: (T, T) -> bool, s: seq<T>, t: seq<T>)
    requires TotalOrder(le) && SortedBy(le, s) && SortedBy(le, t)
    requires multiset(s) == multiset(t) && s != [] && t != []
    ensures s[0] == t[0]
  {
    assert s[0] in multiset(t) && t[0] in multiset(s);
    assert le(s[0], t[0]) && le(t[0], s[0]);
  }

  lemma FirstAndRest<T>(s: seq<T>)
    requires s != []
    ensures s == [s[0]] + s[1..]
  {
  }

  lemma FrontRemoved<T>(s: seq<T>)
    requires s != []
    ensures multiset(s[1..]) == multiset(s) - multiset{s[0]}
  {
    assert s == [s[0]] + s[1..];
  }

  /** A total order admits one sorted arrangement of a multiset, so any correct sort agrees with `Sort`. */
  lemma {:induction false} SortedUnique<T(!new)>(le: (T, T) -> bool, s: seq<T>, t: seq<T>)
    requires TotalOrder(le) && SortedBy(le, s) && SortedBy(le, t)
    requires multiset(s) == multiset(t)
    ensures s == t
  {
    assert |s| == |multiset(s)| == |multiset(t)| == |t|;
    if s == [] {
    } else {
      SameFirst(le, s, t);
      FrontRemoved(s);
      FrontRemoved(t);
      SortedUnique(le, s[1..], t[1..]);
      FirstAndRest(s);
      FirstAndRest(t);
    }
  }

  lemma SortCanonical<T(!new)>(le: (T, T) -> bool, s: seq<T>, t: seq<T>)
    requires TotalOrder(le) && multiset(s) == multiset(t)
    ensures Sort(le, s) == Sort(le, t)
  {
    SortSorts(le, s);
    SortSorts(le, t);
    SortedUnique(le, Sort(le, s), Sort(le, t));
  }

  // ---------- the sorted listing of a set of strings ----------

  lemma LeastOfBoth<T(!new)>(le: (T, T) -> bool, s: set<T>, x: T, n: T)
    requires TotalOrder(le) && x in s && forall y :: y in s - {x} ==> le(n, y)
    ensures forall y :: y in s ==> le(if le(x, n) then x else n, y)
  {
    forall y | y in s ensures le(if le(x, n) then x else n, y) {
      assert y == x || y in s - {x};
    }
  }

  lemma {:induction false} FindLeast<T(!new)>(le: (T, T) -> bool, s: set<T>) returns (m: T)
    requires s != {} && TotalOrder(le)
    ensures m in s && forall y :: y in s ==> le(m, y)
  {
    var x :| x in s;
    var rest := s - {x};
    m := x;
    if rest != {} {
      var n := FindLeast(le, rest);
      m := if le(x, n) then x else n;
      LeastOfBoth(le, s, x, n);
    } else {
      assert s == {x} && le(x, x);
    }
  }

  lemma LeastExists<T(!new)>(le: (T, T) -> bool, s: set<T>)
    requires s != {} && TotalOrder(le)
    ensures exists m :: m in s && forall y :: y in s ==> le(m, y)
  {
    var m := FindLeast(le, s);
  }

  function Least(s: set<string>): (m: string)
    requires s != {}
    ensures m in s && forall y :: y in s ==> NotAfter(m, y)
  {
    NotAfterIsTotal();
    LeastExists(NotAfter, s);
    var m :| m in s && forall y :: y in s ==> NotAfter(m, y);
    m
  }

  /** The members of `s` in increasing order: what collecting map keys and sorting them gives. */
  function SortedSet(s: set<string>): (r: seq<string>)
    ensures multiset(r) == multiset(s)
    ensures forall x :: x in r <==> x in s
  {
    if s == {} then []
    else
      var m := Least(s);
      var r := [m] + SortedSet(s - {m});
      assert multiset(s) == multiset(s - {m}) + multiset{m};
      r
  }

  lemma {:induction false} SortedSetSorted(s: set<string>)
    ensures SortedBy(NotAfter, SortedSet(s)) && NoDuplicates(SortedSet(s))
  {
    if s == {} {
    } else {
      var m := Least(s);
      SortedSetSorted(s - {m});
      var r := SortedSet(s - {m});
      forall j | 0 <= j < |r| ensures r[j] in s && r[j] != m {
        assert r[j] in s - {m};
      }
    }
  }

  /** Listing a set in any order and sorting gives `SortedSet`. */
  lemma SortOfSet(items: seq<string>, s: set<string>)
    requires multiset(items) == multiset(s)
    ensures SortStrings(items) == SortedSet(s)
  {
    NotAfterIsTotal();
    SortSorts(NotAfter, items);
    SortedSetSorted(s);
    SortedUnique(NotAfter, SortStrings(items), SortedSet(s));
  }

  lemma {:induction false} NoDuplicatesMultiset<T>(items: seq<T>, s: set<T>)
    requires NoDuplicates(items)
    requires forall x :: x in items <==> x in s
    ensures multiset(items) == multiset(s)
  {
    if items == [] {
      assert s == {};
    } else {
      var s' := s - {items[0]};
      forall x ensures x in items[1..] <==> x in s' {
        if x in s' { assert x in items; }
      }
      NoDuplicatesMultiset(items[1..], s');
      assert items == [items[0]] + items[1..];
      assert s == s' + {items[0]};
    }
  }
}
