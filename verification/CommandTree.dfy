/** The mutable command tree that the registry grows, proved against its value model. */
module CommandTree {
  import opened Text
  import opened Options
  import opened CommandSpec

  class Command {
    const use: string
    ghost const path: Path  // the words that lead here from the root
    var short: string
    var help: Option<string>
    var run: Run
    var children: seq<Command>

    constructor (use: string, ghost path: Path, short: string, run: Run)
      ensures this.use == use && this.path == path && this.short == short && this.help == None && this.run == run && children == []
    {
      this.use, this.path, this.short, this.help, this.run, this.children := use, path, short, None, run, [];
    }

    /** The first word of the usage line. */
    function Name(): string {
      UpToSpace(use)
    }

    function Info(): Node
      reads this
    {
      Node(short, help, run)
    }
  }

  function UpToSpace(s: string): string {
    if s == "" || s[0] == ' ' then "" else [s[0]] + UpToSpace(s[1..])
  }

  lemma {:induction false} UpToSpaceWhole(s: string)
    requires ' ' !in s
    ensures UpToSpace(s) == s
  {
    if s == "" {
    } else {
      UpToSpaceWhole(s[1..]);
    }
  }

  /** The root command: it has a help function of its own, and running it shows that help. */
  const ROOT: Node := Node("OpenStack command line client", Some(""), Builtin)

  /** The tree below a root; `nodes` are all its commands, and `contents` is its value. */
  class Tree {
    const root: Command
    const implemented: map<string, int>
    ghost var nodes: set<Command>
    ghost var contents: CommandSpec.Tree

    ghost predicate Valid()
      reads this, nodes
    {
      && root in nodes && root.path == []
      && (forall c, d :: c in nodes && d in nodes && c.path == d.path ==> c == d)
      && (forall c {:trigger ChildrenValid(c)} :: c in nodes ==> ChildrenValid(c))
      && (forall c {:trigger HasParent(c)} :: c in nodes && c != root ==> HasParent(c))
      && (forall c :: c in nodes ==> c.path in contents && contents[c.path] == c.Info())
      && (forall p {:trigger Has(p)} :: p in contents ==> Has(p))
    }

    /** Children extend the path by their names, which differ. */
    ghost predicate ChildrenValid(c: Command)
      reads this, nodes, c
    {
      && (forall k :: 0 <= k < |c.children| ==> c.children[k] in nodes && c.children[k].path == c.path + [c.children[k].Name()])
      && (forall j, k :: 0 <= j < k < |c.children| ==> c.children[j].Name() != c.children[k].Name())
    }

    ghost predicate HasParent(c: Command)
      reads this, nodes
    {
      exists d :: d in nodes && c in d.children
    }

    ghost predicate Has(p: Path)
      reads this, nodes
    {
      exists c :: c in nodes && c.path == p
    }

    constructor (implemented: map<string, int>)
      ensures Valid() && fresh(nodes) && this.implemented == implemented
      ensures contents == map[[] := ROOT]
    {
      var top := new Command("openstack", [], "OpenStack command line client", Builtin);
      top.help := Some("");
      root := top;
      this.implemented := implemented;
      nodes := {top};
      contents := map[[] := ROOT];
    }

    /** The child called `name`, if there is one. */
    method FindChild(parent: Command, name: string) returns (child: Command?)
      requires Valid() && parent in nodes
      ensures child == null ==> parent.path + [name] !in contents
      ensures child != null ==> child in nodes && child in parent.children && child.path == parent.path + [name]
    {
      assert ChildrenValid(parent);
      for k := 0 to |parent.children|
        invariant forall j :: 0 <= j < k ==> parent.children[j].Name() != name
      {
        if parent.children[k].Name() == name {
          return parent.children[k];
        }
      }
      child := null;
      assert parent.path + [name] in contents ==> Has(parent.path + [name]);
      forall d | d in nodes ensures d.path != parent.path + [name] {
        if d != root {
          assert HasParent(d);
          var e :| e in nodes && d in e.children;
          assert ChildrenValid(e);
          assert d.path == e.path + [d.Name()];
          SameExtension(e.path, d.Name(), parent.path, name);
        }
      }
    }

    /** Looks the words up from the root, as running the program does. */
    method Find(words: Path) returns (node: Command?)
      requires Valid()
      ensures node != null <==> words in contents
      ensures node != null ==> node.Info() == contents[words]
    {
      node := root;
      var i := 0;
      assert words[..0] == [];
      while i < |words|
        invariant 0 <= i <= |words|
        invariant node in nodes && node.path == words[..i]
      {
        assert words[..i + 1] == words[..i] + [words[i]];
        var next := FindChild(node, words[i]);
        if next == null {
          if words in contents {
            assert Has(words);
            PrefixClosed(words, i + 1);
          }
          return null;
        }
        node := next;
        i := i + 1;
      }
      assert words[..i] == words;
    }

    lemma {:induction false} PrefixClosed(p: Path, i: nat)
      requires Valid() && i <= |p| && Has(p)
      ensures Has(p[..i])
      decreases |p|
    {
      if i < |p| {
        var c :| c in nodes && c.path == p;
        assert HasParent(c);
        var d :| d in nodes && c in d.children;
        assert ChildrenValid(d);
        assert d.path == p[..|p| - 1];
        PrefixClosed(p[..|p| - 1], i);
        assert p[..|p| - 1][..i] == p[..i];
      } else {
        assert p[..i] == p;
      }
    }

    // ---------- growing the tree ----------

    lemma NameIsNew(parent: Command, name: string)
      requires Valid() && parent in nodes && parent.path + [name] !in contents
      ensures forall k :: 0 <= k < |parent.children| ==> parent.children[k].Name() != name
    {
      assert ChildrenValid(parent);
    }

    /** A new last child with a new name leaves a tree. */
    twostate lemma Grown(parent: Command, new child: Command)
      requires old(Valid()) && parent in old(nodes) && child !in old(nodes) && nodes == old(nodes) + {child}
      requires parent.children == old(parent.children) + [child] && child.children == []
      requires forall c :: c in old(nodes) && c != parent ==> c.children == old(c.children)
      requires child.path == parent.path + [child.Name()]
      requires forall k :: 0 <= k < |old(parent.children)| ==> old(parent.children)[k].Name() != child.Name()
      ensures forall c :: c in nodes && c != root ==> HasParent(c)
      ensures forall c :: c in nodes ==> ChildrenValid(c)
    {
      forall c | c in nodes && c != root ensures HasParent(c) {
        if c == child {
          assert child in parent.children;
        } else {
          assert old(HasParent(c));
          var d :| d in old(nodes) && c in old(d.children);
          assert d in nodes && c in d.children;
        }
      }
      forall c | c in nodes ensures ChildrenValid(c) {
        assert c != child ==> old(ChildrenValid(c));
      }
    }

    twostate lemma GrownContents(new child: Command)
      requires old(Valid()) && child !in old(nodes) && nodes == old(nodes) + {child}
      requires child.path !in old(contents) && contents == old(contents)[child.path := child.Info()]
      requires forall c :: c in old(nodes) ==> c.Info() == old(c.Info())
      ensures forall c, d :: c in nodes && d in nodes && c.path == d.path ==> c == d
      ensures forall c :: c in nodes ==> c.path in contents && contents[c.path] == c.Info()
      ensures forall p :: p in contents ==> Has(p)
    {
      forall p | p in contents ensures Has(p) {
        assert p == child.path || old(Has(p));
      }
    }

    method AddChild(parent: Command, use: string, short: string, run: Run) returns (child: Command)
      requires Valid() && parent in nodes && parent.path + [UpToSpace(use)] !in contents
      modifies this`nodes, this`contents, parent`children
      ensures Valid() && fresh(child) && nodes == old(nodes) + {child}
      ensures child.path == parent.path + [UpToSpace(use)] && child.Info() == Node(short, None, run)
      ensures contents == old(contents)[child.path := Node(short, None, run)]
    {
      NameIsNew(parent, UpToSpace(use));
      child := new Command(use, parent.path + [UpToSpace(use)], short, run);
      parent.children := parent.children + [child];
      nodes := nodes + {child};
      contents := contents[child.path := Node(short, None, run)];
      Grown(parent, child);
      GrownContents(child);
    }

    /** `root.AddCommand` for one of the program's own commands. */
    method AddBuiltin(use: string, name: string, short: string)
      requires Valid() && UpToSpace(use) == name && [name] !in contents
      modifies this`nodes, this`contents, root`children
      ensures Valid() && fresh(nodes - old(nodes))
      ensures contents == old(contents)[[name] := Node(short, None, Builtin)]
    {
      assert root.path + [name] == [name];
      var child := AddChild(root, use, short, Builtin);
    }

    twostate lemma SameShape()
      requires old(Valid()) && nodes == old(nodes) && forall c :: c in nodes ==> c.children == old(c.children)
      ensures forall c :: c in nodes && c != root ==> HasParent(c)
      ensures forall c :: c in nodes ==> ChildrenValid(c)
    {
      forall c | c in nodes && c != root ensures HasParent(c) {
        assert old(HasParent(c));
        var d :| d in old(nodes) && c in old(d.children);
        assert c in d.children;
      }
      forall c | c in nodes ensures ChildrenValid(c) {
        assert old(ChildrenValid(c));
      }
    }

    twostate lemma Reconfigured(child: Command)
      requires old(Valid()) && child in nodes && nodes == old(nodes)
      requires forall c :: c in nodes ==> c.children == old(c.children)
      requires forall c :: c in nodes && c != child ==> c.Info() == old(c.Info())
      requires contents == old(contents)[child.path := child.Info()]
      ensures Valid()
    {
      SameShape();
      forall p | p in contents ensures Has(p) {
        assert old(Has(p));
      }
    }

    /** Flags and help functions are reduced to the path that they are for. */
    method ConfigureLeaf(child: Command, fullPath: string)
      requires Valid() && child in nodes
      modifies this`contents, child`short, child`help, child`run
      ensures Valid()
      ensures contents == old(contents)[child.path := Placed(Some(old(child.Info())), implemented, fullPath, true)]
    {
      child.short := fullPath;
      child.help := Some(fullPath);
      if fullPath in implemented {
        child.run := Implemented(implemented[fullPath]);
      } else {
        child.run := NotImplemented;
      }
      contents := contents[child.path := child.Info()];
      Reconfigured(child);
    }

    method ConfigureIntermediate(child: Command, fullPath: string)
      requires Valid() && child in nodes
      modifies this`contents, child`help
      ensures Valid()
      ensures contents == old(contents)[child.path := Placed(Some(old(child.Info())), implemented, fullPath, false)]
    {
      child.help := Some(fullPath);
      contents := contents[child.path := child.Info()];
      Reconfigured(child);
    }

    /** One word of a command path: find or make the child, then configure it. */
    method Walk(parent: Command, part: string, fullPath: string, leaf: bool) returns (child: Command)
      requires Valid() && parent in nodes && ' ' !in part
      modifies this`nodes, this`contents, nodes
      ensures Valid() && child in nodes && fresh(nodes - old(nodes)) && child.path == parent.path + [part]
      ensures contents == old(contents)[child.path := Placed(Get(old(contents), child.path), implemented, fullPath, leaf)]
    {
      UpToSpaceWhole(part);
      var found := FindChild(parent, part);
      if found == null {
        child := AddChild(parent, part, fullPath, NotRunnable);
      } else {
        child := found;
      }
      if leaf {
        ConfigureLeaf(child, fullPath);
      } else {
        ConfigureIntermediate(child, fullPath);
      }
    }

    method AddPath(parts: Path)
      requires Valid() && forall i :: 0 <= i < |parts| ==> ' ' !in parts[i]
      modifies this`nodes, this`contents, nodes
      ensures Valid() && fresh(nodes - old(nodes))
      ensures contents == AddedUpTo(old(contents), implemented, parts, |parts|)
    {
      ghost var t := contents;
      var parent := root;
      for i := 0 to |parts|
        invariant Valid() && fresh(nodes - old(nodes))
        invariant parent in nodes && parent.path == parts[..i]
        invariant contents == AddedUpTo(t, implemented, parts, i)
      {
        PrefixSnoc(parts, i);
        parent := Walk(parent, parts[i], Join(parts[..i + 1], ' '), i == |parts| - 1);
      }
    }

    /** Adding one command path does to the tree what the value model says; a blank one does nothing. */
    method AddCommand(command: string)
      requires Valid()
      modifies this`nodes, this`contents, nodes
      ensures Valid() && fresh(nodes - old(nodes))
      ensures contents == AddedUpTo(old(contents), implemented, Fields(command), |Fields(command)|)
    {
      var parts := Fields(command);
      if |parts| == 0 {
        return;
      }
      WordsHoldNoSpace(command);
      AddPath(parts);
    }

    method AddGroup(group: seq<string>)
      requires Valid()
      modifies this`nodes, this`contents, nodes
      ensures Valid() && fresh(nodes - old(nodes))
      ensures contents == AddAll(old(contents), implemented, group)
    {
      ghost var t := contents;
      for j := 0 to |group|
        invariant Valid() && fresh(nodes - old(nodes))
        invariant contents == AddAll(t, implemented, group[..j])
      {
        AddAllSnoc(t, implemented, group, j);
        AddCommand(group[j]);
      }
      assert group[..|group|] == group;
    }

    method AddCatalogCommands(groups: seq<seq<string>>)
      requires Valid()
      modifies this`nodes, this`contents, nodes
      ensures Valid() && fresh(nodes - old(nodes))
      ensures contents == AddAll(old(contents), implemented, Flatten(groups))
    {
      ghost var t := contents;
      for i := 0 to |groups|
        invariant Valid() && fresh(nodes - old(nodes))
        invariant contents == AddAll(t, implemented, Flatten(groups[..i]))
      {
        FlattenSnoc(groups, i);
        AddAllAppend(t, implemented, Flatten(groups[..i]), groups[i]);
        AddGroup(groups[i]);
      }
      assert groups[..|groups|] == groups;
    }
  }

  lemma PrefixSnoc(parts: Path, i: nat)
    requires i < |parts|
    ensures parts[..i + 1] == parts[..i] + [parts[i]]
  {
  }

  lemma WordsHoldNoSpace(command: string)
    ensures forall i :: 0 <= i < |Fields(command)| ==> ' ' !in Fields(command)[i]
  {
    forall i | 0 <= i < |Fields(command)| ensures ' ' !in Fields(command)[i] {
      FieldsAreWords(command, Fields(command)[i]);
      assert IsSpace(' ');
    }
  }

  function Flatten(groups: seq<seq<string>>): seq<string> {
    if groups == [] then [] else Flatten(groups[..|groups| - 1]) + groups[|groups| - 1]
  }

  lemma FlattenSnoc(groups: seq<seq<string>>, i: nat)
    requires i < |groups|
    ensures Flatten(groups[..i + 1]) == Flatten(groups[..i]) + groups[i]
  {
    assert groups[..i + 1][..i] == groups[..i];
  }

  lemma AddAllSnoc(t: CommandSpec.Tree, implemented: map<string, int>, commands: seq<string>, i: nat)
    requires i < |commands|
    ensures var path := Fields(commands[i]);
            AddAll(t, implemented, commands[..i + 1]) == AddedUpTo(AddAll(t, implemented, commands[..i]), implemented, path, |path|)
  {
    assert commands[..i + 1][..i] == commands[..i];
  }

  lemma {:induction false} AddAllAppend(t: CommandSpec.Tree, implemented: map<string, int>, p: seq<string>, q: seq<string>)
    ensures AddAll(t, implemented, p + q) == AddAll(AddAll(t, implemented, p), implemented, q)
  {
    if q == [] {
      assert p + q == p;
    } else {
      var front := q[..|q| - 1];
      assert (p + q)[..|p + q| - 1] == p + front;
      AddAllAppend(t, implemented, p, front);
    }
  }

  const STARTING_TREE: CommandSpec.Tree := map[
    [] := ROOT,
    ["help"] := Node("Show help for a command", None, Builtin),
    ["complete"] := Node("Print shell completion functions", None, Builtin)]

  lemma StartingTree()
    ensures var t := map[[] := ROOT];
            var u := t[["help"] := Node("Show help for a command", None, Builtin)];
            && ["help"] !in t && ["complete"] !in u
            && u[["complete"] := Node("Print shell completion functions", None, Builtin)] == STARTING_TREE
  {
  }

  method NewRoot(implemented: map<string, int>) returns (tree: Tree)
    ensures fresh(tree) && fresh(tree.nodes) && tree.Valid()
    ensures tree.implemented == implemented && tree.contents == STARTING_TREE
  {
    tree := new Tree(implemented);
    BuiltinNames();
    StartingTree();
    tree.AddBuiltin("help [command]", "help", "Show help for a command");
    tree.AddBuiltin("complete", "complete", "Print shell completion functions");
  }

  /**
   * The whole program's tree.  Words lead to a node exactly when they are empty, one of the two built-in commands, or
   * a non-empty prefix of a listed path; listed paths run their own handler even when longer commands pass through
   * them; and neither the order nor the grouping of the catalog matters.
   */
  method NewRootCommand(implemented: map<string, int>, groups: seq<seq<string>>) returns (tree: Tree)
    ensures fresh(tree) && fresh(tree.nodes) && tree.Valid()
    ensures tree.contents == ExpectedTree(STARTING_TREE, implemented, Paths(Flatten(groups)))
  {
    tree := NewRoot(implemented);
    tree.AddCatalogCommands(groups);
    AddAllIsExpected(STARTING_TREE, implemented, Flatten(groups));
  }

  /** Which words lead to a node of the finished tree, which of those nodes are runnable, and what they run, show and say. */
  lemma RunnableExactly(implemented: map<string, int>, commands: seq<string>, p: Path)
    ensures var t := ExpectedTree(STARTING_TREE, implemented, Paths(commands));
            var full := Join(p, ' ');
            var passed := p != [] && exists q :: q in Paths(commands) && p <= q;
            && (p in t <==> p in STARTING_TREE || passed)
            && (p in t && t[p].run != NotRunnable <==> p in Paths(commands) || p == [] || p == ["help"] || p == ["complete"])
            && (p in Paths(commands) ==> t[p].run == if full in implemented then Implemented(implemented[full]) else NotImplemented)
            && (p in Paths(commands) || (passed && p !in STARTING_TREE) ==> t[p].short == full)
            && (passed ==> t[p].help == Some(full))
            && (p in STARTING_TREE && !passed ==> t[p] == STARTING_TREE[p])
            && (p in STARTING_TREE && p !in Paths(commands) ==> t[p].run == Builtin && t[p].short == STARTING_TREE[p].short)
  {
    var paths := Paths(commands);
    if p in paths {
      ListedIsPrefix(paths, p);
    }
    forall q | q in paths && p <= q && p != [] ensures p in Prefixes(paths) {
      assert q[..|p|] == p;
    }
  }

  /** Unless the catalog lists commands of those names, the program's own commands are as they were made. */
  lemma BuiltinCommands(implemented: map<string, int>, commands: seq<string>)
    ensures var t := ExpectedTree(STARTING_TREE, implemented, Paths(commands));
            && [] in t && t[[]].run == Builtin && t[[]].short == "OpenStack command line client" && t[[]].help == Some("")
            && ["help"] in t && ["complete"] in t
            && (["help"] !in Paths(commands) ==> t[["help"]].run == Builtin && t[["help"]].short == "Show help for a command")
            && (["complete"] !in Paths(commands) ==>
                  t[["complete"]].run == Builtin && t[["complete"]].short == "Print shell completion functions")
  {
    RunnableExactly(implemented, commands, []);
    RunnableExactly(implemented, commands, ["help"]);
    RunnableExactly(implemented, commands, ["complete"]);
  }

  ghost predicate IsWord(w: string) {
    w != "" && forall c :: c in w ==> !IsSpace(c)
  }

  lemma FieldsOfFirst(w: string, joined: string)
    requires IsWord(w)
    ensures Fields(w + [' '] + joined) == [w] + Fields(joined)
  {
    var rest := [' '] + joined;
    Assoc(w, [' '], joined);
    FieldsOfWord(w, rest);
    assert rest[1..] == joined;
  }

  lemma {:induction false} FieldsOfJoin(words: Path)
    requires forall i :: 0 <= i < |words| ==> IsWord(words[i])
    ensures Fields(Join(words, ' ')) == words
  {
    if words == [] {
    } else if |words| == 1 {
      assert words[0] + "" == words[0];
      FieldsOfWord(words[0], "");
    } else {
      FieldsOfJoin(words[1..]);
      FieldsOfFirst(words[0], Join(words[1..], ' '));
    }
  }

  /** Node `p` runs what was registered for `command`, or else says that it is not implemented. */
  ghost predicate RunsHandlerOf(t: CommandSpec.Tree, p: Path, implemented: map<string, int>, command: string) {
    p in t && t[p].run == if command in implemented then Implemented(implemented[command]) else NotImplemented
  }

  lemma ListedRuns(implemented: map<string, int>, commands: seq<string>, p: Path, command: string)
    requires p in Paths(commands) && command == Join(p, ' ')
    ensures RunsHandlerOf(ExpectedTree(STARTING_TREE, implemented, Paths(commands)), p, implemented, command)
  {
    RunnableExactly(implemented, commands, p);
  }

  /** A command listed as words with single blanks is found under those words and runs what was registered for that command. */
  lemma ListedRunsItsHandler(implemented: map<string, int>, commands: seq<string>, words: Path, command: string)
    requires words != [] && (forall i :: 0 <= i < |words| ==> IsWord(words[i])) && command == Join(words, ' ')
    requires command in commands
    ensures RunsHandlerOf(ExpectedTree(STARTING_TREE, implemented, Paths(commands)), words, implemented, command)
  {
    FieldsOfJoin(words);
    ListedIsPath(commands, command);
    ListedRuns(implemented, commands, words, command);
  }

  lemma ListedIsPath(commands: seq<string>, command: string)
    requires command in commands && Fields(command) != []
    ensures Fields(command) in Paths(commands)
  {
  }

  lemma SameExtension(p: Path, v: string, q: Path, w: string)
    ensures p + [v] == q + [w] <==> p == q && v == w
  {
    assert (p + [v])[..|p|] == p && (q + [w])[..|q|] == q;
    assert (p + [v])[|p|] == v && (q + [w])[|q|] == w;
  }

  lemma BuiltinNames()
    ensures UpToSpace("help [command]") == "help" && UpToSpace("complete") == "complete"
  {
    assert "help [command]" == "help" + " [command]";
    UpToSpaceAppend("help", " [command]");
    UpToSpaceWhole("complete");
  }

  lemma {:induction false} UpToSpaceAppend(s: string, t: string)
    requires ' ' !in s && t != "" && t[0] == ' '
    ensures UpToSpace(s + t) == s
  {
    if s == "" {
      assert s + t == t;
    } else {
      UpToSpaceAppend(s[1..], t);
      assert (s + t)[1..] == s[1..] + t;
    }
  }
}
