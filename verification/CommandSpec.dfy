/** The command tree as a value: what adding command paths makes of it. */
module CommandSpec {
  import opened Options
  import opened Text

  /** What running a node does: nothing, a command of the program itself, or a catalog command. */
  datatype Run = NotRunnable | Builtin | Implemented(handler: int) | NotImplemented

  datatype Node = Node(short: string, help: Option<string>, run: Run)

  type Path = seq<string>
  type Tree = map<Path, Node>

  function FullPath(path: Path): string {
    Join(path, ' ')
  }

  function LeafRun(implemented: map<string, int>, path: string): Run {
    if path in implemented then Implemented(implemented[path]) else NotImplemented
  }

  /** A node as it is when one command path passes through it, or ends at it. */
  function Placed(before: Option<Node>, implemented: map<string, int>, full: string, leaf: bool): Node {
    var node := if before.Some? then before.value else Node(full, None, NotRunnable);
    if leaf then Node(full, Some(full), LeafRun(implemented, full)) else node.(help := Some(full))
  }

  function Get(t: Tree, p: Path): Option<Node> {
    if p in t then Some(t[p]) else None
  }

  /** The tree after the first `i` words of a command path have been walked. */
  function AddedUpTo(t: Tree, implemented: map<string, int>, path: Path, i: nat): Tree
    requires i <= |path|
  {
    if i == 0 then t
    else
      var before := AddedUpTo(t, implemented, path, i - 1);
      before[path[..i] := Placed(Get(before, path[..i]), implemented, FullPath(path[..i]), i == |path|)]
  }

  function AddAll(t: Tree, implemented: map<string, int>, commands: seq<string>): Tree {
    if commands == [] then t
    else
      var path := Fields(commands[|commands| - 1]);
      AddedUpTo(AddAll(t, implemented, commands[..|commands| - 1]), implemented, path, |path|)
  }

  // ---------- the same tree, from the set of command paths alone ----------

  ghost function Prefixes(paths: set<Path>): set<Path> {
    set p, k | p in paths && 0 < k <= |p| :: p[..k]
  }

  ghost function Paths(commands: seq<string>): set<Path> {
    set c | c in commands && Fields(c) != [] :: Fields(c)
  }

  /** What stands at `p`: a listed path runs its own handler; a proper prefix gets help only; others are as before. */
  ghost function Expected(t: Tree, implemented: map<string, int>, paths: set<Path>, p: Path): Node
    requires p in t || p in Prefixes(paths)
  {
    var base := if p in t then t[p] else Node(FullPath(p), None, NotRunnable);
    if p in paths then Node(FullPath(p), Some(FullPath(p)), LeafRun(implemented, FullPath(p)))
    else if p in Prefixes(paths) then base.(help := Some(FullPath(p)))
    else base
  }

  ghost function ExpectedTree(t: Tree, implemented: map<string, int>, paths: set<Path>): Tree {
    map p | p in t.Keys + Prefixes(paths) :: Expected(t, implemented, paths, p)
  }

  lemma {:induction false} AddedUpToAt(t: Tree, implemented: map<string, int>, path: Path, i: nat, p: Path)
    requires i <= |path|
    ensures Get(AddedUpTo(t, implemented, path, i), p) ==
            if p <= path && 0 < |p| <= i then Some(Placed(Get(t, p), implemented, FullPath(p), |p| == |path|)) else Get(t, p)
  {
    if i == 0 {
    } else {
      AddedUpToAt(t, implemented, path, i - 1, p);
      assert p <= path && |p| == i ==> p == path[..i];
    }
  }

  lemma PrefixesAdd(paths: set<Path>, path: Path, p: Path)
    ensures p in Prefixes(paths + {path}) <==> p in Prefixes(paths) || (p <= path && 0 < |p|)
  {
    if p <= path && 0 < |p| {
      assert p == path[..|p|];
    }
    if p in Prefixes(paths + {path}) {
      var q, k :| q in paths + {path} && 0 < k <= |q| && q[..k] == p;
    }
  }

  lemma ListedIsPrefix(paths: set<Path>, p: Path)
    requires p in paths && p != []
    ensures p in Prefixes(paths)
  {
    assert p[..|p|] == p;
  }

  lemma AddOneAt(t: Tree, implemented: map<string, int>, paths: set<Path>, path: Path, p: Path)
    requires path != [] && [] !in paths
    ensures Get(ExpectedTree(t, implemented, paths + {path}), p) ==
            var before := Get(ExpectedTree(t, implemented, paths), p);
            if p <= path && 0 < |p| then Some(Placed(before, implemented, FullPath(p), |p| == |path|)) else before
  {
    PrefixesAdd(paths, path, p);
    if p in paths {
      ListedIsPrefix(paths, p);
    }
    assert p <= path && |p| == |path| ==> p == path;
  }

  lemma SameTree(r: Tree, s: Tree)
    requires forall p :: Get(r, p) == Get(s, p)
    ensures r == s
  {
    assert forall p :: p in r <==> Get(r, p).Some?;
    assert forall p :: p in s <==> Get(s, p).Some?;
    forall p | p in r ensures p in s && r[p] == s[p] {
      assert Get(r, p) == Get(s, p);
    }
  }

  lemma AddOneExpected(t: Tree, implemented: map<string, int>, paths: set<Path>, path: Path)
    requires path != [] && [] !in paths
    ensures AddedUpTo(ExpectedTree(t, implemented, paths), implemented, path, |path|)
            == ExpectedTree(t, implemented, paths + {path})
  {
    var before, after := ExpectedTree(t, implemented, paths), ExpectedTree(t, implemented, paths + {path});
    var r := AddedUpTo(before, implemented, path, |path|);
    forall p ensures Get(r, p) == Get(after, p) {
      AddedUpToAt(before, implemented, path, |path|, p);
      AddOneAt(t, implemented, paths, path, p);
    }
    SameTree(r, after);
  }

  /**
   * The tree depends only on the set of command paths: not on their order, nor on repetition, nor on the white space
   * between words.
   */
  lemma {:induction false} AddAllIsExpected(t: Tree, implemented: map<string, int>, commands: seq<string>)
    ensures AddAll(t, implemented, commands) == ExpectedTree(t, implemented, Paths(commands))
  {
    if commands == [] {
      assert ExpectedTree(t, implemented, Paths([])) == t;
    } else {
      var front, last := commands[..|commands| - 1], commands[|commands| - 1];
      AddAllIsExpected(t, implemented, front);
      assert commands == front + [last];
      if Fields(last) == [] {
        assert Paths(commands) == Paths(front);
      } else {
        assert Paths(commands) == Paths(front) + {Fields(last)};
        AddOneExpected(t, implemented, Paths(front), Fields(last));
      }
    }
  }

  lemma OrderIrrelevant(t: Tree, implemented: map<string, int>, c: seq<string>, d: seq<string>)
    requires multiset(c) == multiset(d)
    ensures AddAll(t, implemented, c) == AddAll(t, implemented, d)
  {
    AddAllIsExpected(t, implemented, c);
    AddAllIsExpected(t, implemented, d);
    assert forall x :: x in c <==> x in multiset(c);
    assert forall x :: x in d <==> x in multiset(d);
    assert Paths(c) == Paths(d);
  }
}
