/** Paths and name trees, as path2vnode sees them (sys/fs/vfs.c): a path is the names between its
    slashes, and a lookup follows them one by one. */
module Paths {
  import opened HashMap

  /** NAME_MAX of sys/include/limits.h */
  const NAME_MAX: nat := 255

  // ---------- C strings ----------

  /** The text of a buffer up to its first NUL. */
  function CString(buffer: seq<char>): (s: string)
    requires '\0' in buffer
    ensures |s| < |buffer| && buffer[..|s|] == s && buffer[|s|] == '\0' && '\0' !in s
  {
    if buffer[0] == '\0' then "" else [buffer[0]] + CString(buffer[1..])
  }

  lemma {:induction false} CStringOf(s: string, rest: seq<char>)
    requires '\0' !in s && rest != [] && rest[0] == '\0'
    ensures '\0' in s + rest && CString(s + rest) == s
  {
    assert (s + rest)[|s|] == '\0';
    if s != "" {
      CStringOf(s[1..], rest);
      assert (s + rest)[1..] == s[1..] + rest;
    }
  }

  /** A scan at position ptr of the text. */
  lemma TextAt(buffer: seq<char>, ptr: nat)
    requires '\0' in buffer && ptr <= |CString(buffer)|
    ensures ptr < |buffer| && (buffer[ptr] == '\0' <==> CString(buffer)[ptr..] == "")
    ensures buffer[ptr] != '\0' ==>
              && ptr < |CString(buffer)| && CString(buffer)[ptr..][0] == buffer[ptr]
              && CString(buffer)[ptr..][1..] == CString(buffer)[ptr + 1..]
  {
    var text := CString(buffer);
    if ptr < |text| {
      assert text[ptr] == buffer[..|text|][ptr];
      assert text[ptr] in text;
      assert text[ptr..][1..] == text[ptr + 1..];
    }
  }

  // ---------- splitting and joining ----------

  /** The names of s between slashes, the first of them continuing acc. */
  function SplitFrom(acc: string, s: string): (names: seq<string>)
    ensures names != []
    decreases s
  {
    if s == "" then [acc]
    else if s[0] == '/' then [acc] + SplitFrom("", s[1..])
    else SplitFrom(acc + [s[0]], s[1..])
  }

  function Split(s: string): seq<string> {
    SplitFrom("", s)
  }

  function Join(names: seq<string>): string
    requires names != []
  {
    if |names| == 1 then names[0] else names[0] + "/" + Join(names[1..])
  }

  ghost predicate SlashFree(names: seq<string>) {
    forall i :: 0 <= i < |names| ==> '/' !in names[i]
  }

  lemma {:induction false} JoinOfSplit(acc: string, s: string)
    ensures Join(SplitFrom(acc, s)) == acc + s
    decreases s
  {
    if s != "" {
      if s[0] == '/' {
        JoinOfSplit("", s[1..]);
        var rest := SplitFrom("", s[1..]);
        assert ([acc] + rest)[1..] == rest;
        assert acc + "/" + s[1..] == acc + s;
      } else {
        JoinOfSplit(acc + [s[0]], s[1..]);
        assert acc + [s[0]] + s[1..] == acc + s;
      }
    }
  }

  lemma {:induction false} SplitIsSlashFree(acc: string, s: string)
    requires '/' !in acc
    ensures SlashFree(SplitFrom(acc, s))
    decreases s
  {
    if s != "" {
      SplitIsSlashFree(if s[0] == '/' then "" else acc + [s[0]], s[1..]);
    }
  }

  /** Scanning a slash-free name. */
  lemma {:induction false} SplitName(acc: string, name: string, rest: string)
    requires '/' !in name
    ensures SplitFrom(acc, name + rest) == SplitFrom(acc + name, rest)
    decreases name
  {
    if name == "" {
      assert name + rest == rest && acc + name == acc;
    } else {
      SplitName(acc + [name[0]], name[1..], rest);
      assert (name + rest)[1..] == name[1..] + rest;
      assert acc + [name[0]] + name[1..] == acc + name;
    }
  }

  lemma {:induction false} SplitOfJoin(names: seq<string>)
    requires names != [] && SlashFree(names)
    ensures Split(Join(names)) == names
  {
    var name := names[0];
    if |names| == 1 {
      SplitName("", name, "");
      assert name + "" == name && "" + name == name;
    } else {
      var rest := Join(names[1..]);
      SplitOfJoin(names[1..]);
      SplitName("", name, "/" + rest);
      assert name + "/" + rest == name + ("/" + rest);
      assert ("/" + rest)[1..] == rest;
      assert "" + name == name;
    }
  }

  /** Names come back from the path they make exactly when none of them has a slash. */
  lemma SplitJoinRoundTrip(names: seq<string>)
    requires names != []
    ensures Split(Join(names)) == names <==> SlashFree(names)
  {
    SplitIsSlashFree("", Join(names));
    if SlashFree(names) { SplitOfJoin(names); }
  }

  // ---------- lookups ----------

  /** The children of every node, by name. */
  type Tree<!N> = map<N, map<string, Ref<N>>>

  function Child<N>(tree: Tree<N>, v: N, name: string): Ref<N> {
    if v in tree && name in tree[v] then tree[v][name] else Null
  }

  /** The node that names lead to from v: each name in turn is looked up among the children of the
      node before; a name of NAME_MAX characters or more is not looked up at all. */
  function Follow<N>(tree: Tree<N>, v: N, names: seq<string>): Ref<N> {
    if names == [] then To(v)
    else if |names[0]| >= NAME_MAX then Null
    else match Child(tree, v, names[0])
      case Null => Null
      case To(c) => Follow(tree, c, names[1..])
  }

  /** What a path means: nothing unless it starts with a slash; then what its names lead to from
      the root, the root itself excepted. */
  function Resolve<N(==)>(tree: Tree<N>, root: N, path: string): Ref<N> {
    if path == "" || path[0] != '/' then Null else
      var found := Follow(tree, root, Split(path[1..]));
      if found == To(root) then Null else found
  }

  lemma {:induction false} FirstNameGrows(acc: string, s: string)
    ensures |SplitFrom(acc, s)[0]| >= |acc|
    decreases s
  {
    if s != "" && s[0] != '/' { FirstNameGrows(acc + [s[0]], s[1..]); }
  }

  /** What a scan makes of the rest of a path: at the end of a name, in a name, in one too long. */
  lemma FollowAtName<N>(tree: Tree<N>, v: N, acc: string, s: string)
    requires |acc| < NAME_MAX && (s == "" || s[0] == '/')
    ensures Follow(tree, v, SplitFrom(acc, s)) ==
              match Child(tree, v, acc)
              case Null => Null
              case To(c) => (if s == "" then To(c) else Follow(tree, c, Split(s[1..])))
  {
    if s != "" {
      assert ([acc] + Split(s[1..]))[1..] == Split(s[1..]);
    }
  }

  lemma FollowInName<N>(tree: Tree<N>, v: N, acc: string, s: string)
    requires s != "" && s[0] != '/'
    ensures Follow(tree, v, SplitFrom(acc, s)) == Follow(tree, v, SplitFrom(acc + [s[0]], s[1..]))
  {
  }

  lemma FollowLongName<N>(tree: Tree<N>, v: N, acc: string, s: string)
    requires |acc| >= NAME_MAX
    ensures Follow(tree, v, SplitFrom(acc, s)) == Null
  {
    FirstNameGrows(acc, s);
  }

  // ---------- trees built by appending ----------

  datatype Append<N> = Append(parent: N, name: string, child: N)

  /** The tree after appends, each put under its parent by name. */
  function Built<N>(nodes: Tree<N>, appends: seq<Append<N>>): Tree<N> {
    if appends == [] then nodes else
      var before, a := Built(nodes, appends[..|appends| - 1]), appends[|appends| - 1];
      before[a.parent := (if a.parent in before then before[a.parent] else map[])[a.name := To(a.child)]]
  }

  /** No two appends give the same parent two children of one name. */
  ghost predicate DistinctSiblings<N>(appends: seq<Append<N>>) {
    forall i, j :: 0 <= i < j < |appends| ==>
      appends[i].parent != appends[j].parent || appends[i].name != appends[j].name
  }

  ghost predicate AppendedAs<N>(appends: seq<Append<N>>, v: N, name: string, c: N) {
    exists i :: 0 <= i < |appends| && appends[i] == Append(v, name, c)
  }

  /** In a tree built from childless nodes with distinct sibling names, the children are exactly
      those appended. */
  lemma {:induction false} ChildrenAreAppended<N>(nodes: Tree<N>, appends: seq<Append<N>>, v: N, name: string, c: N)
    requires forall n :: n in nodes ==> nodes[n] == map[]
    requires DistinctSiblings(appends)
    ensures Child(Built(nodes, appends), v, name) == To(c) <==> AppendedAs(appends, v, name, c)
  {
    if appends != [] {
      var k := |appends| - 1;
      var before, a := appends[..k], appends[k];
      ChildrenAreAppended(nodes, before, v, name, c);
      assert appends == before + [a];
      if a == Append(v, name, c) { assert appends[k] == Append(v, name, c); }
      if i :| 0 <= i < k && before[i] == Append(v, name, c) {
        assert appends[i] == Append(v, name, c);
      }
      if i :| 0 <= i < |appends| && appends[i] == Append(v, name, c) {
        assert i < k ==> before[i] == Append(v, name, c);
      }
    }
  }

  ghost predicate Hangs<N>(appends: seq<Append<N>>, v: N, names: seq<string>, chain: seq<N>, i: nat)
    requires i < |names| == |chain|
  {
    AppendedAs(appends, if i == 0 then v else chain[i - 1], names[i], chain[i])
  }

  /** Each node of the chain was appended to the one before, the first to v, under its name. */
  ghost predicate Chain<N>(appends: seq<Append<N>>, v: N, names: seq<string>, chain: seq<N>) {
    && |chain| == |names|
    && forall i: nat :: i < |names| ==> Hangs(appends, v, names, chain, i)
  }

  lemma {:induction false} FollowChain<N>(
    nodes: Tree<N>, appends: seq<Append<N>>, v: N, names: seq<string>, chain: seq<N>)
    requires forall n :: n in nodes ==> nodes[n] == map[]
    requires DistinctSiblings(appends) && Chain(appends, v, names, chain)
    requires forall i :: 0 <= i < |names| ==> |names[i]| < NAME_MAX
    ensures Follow(Built(nodes, appends), v, names) == To(if chain == [] then v else chain[|chain| - 1])
    decreases names
  {
    if names != [] {
      ChildrenAreAppended(nodes, appends, v, names[0], chain[0]);
      assert Hangs(appends, v, names, chain, 0);
      var names', chain' := names[1..], chain[1..];
      forall i: nat | i < |names'| ensures Hangs(appends, chain[0], names', chain', i) {
        assert Hangs(appends, v, names, chain, i + 1);
      }
      assert chain == [chain[0]] + chain';
      FollowChain(nodes, appends, chain[0], names', chain');
    }
  }

  /** The path made of the names on a node's chain resolves to the node. */
  lemma PathOfNode<N>(nodes: Tree<N>, appends: seq<Append<N>>, root: N, names: seq<string>, chain: seq<N>)
    requires forall n :: n in nodes ==> nodes[n] == map[]
    requires DistinctSiblings(appends) && names != [] && Chain(appends, root, names, chain)
    requires SlashFree(names) && forall i :: 0 <= i < |names| ==> |names[i]| < NAME_MAX
    ensures Resolve(Built(nodes, appends), root, "/" + Join(names))
            == if chain[|chain| - 1] == root then Null else To(chain[|chain| - 1])
  {
    SplitOfJoin(names);
    assert ("/" + Join(names))[1..] == Join(names);
    FollowChain(nodes, appends, root, names, chain);
  }

  // ---------- which nodes their paths find ----------

  /** Every node is appended at most once, and the root never. */
  ghost predicate OneParent<N>(appends: seq<Append<N>>, root: N) {
    && (forall i :: 0 <= i < |appends| ==> appends[i].child != root)
    && (forall i, j :: 0 <= i < j < |appends| ==> appends[i].child != appends[j].child)
  }

  lemma AppendedOnce<N>(appends: seq<Append<N>>, root: N, v: N, name: string, v': N, name': string, c: N)
    requires OneParent(appends, root) && AppendedAs(appends, v, name, c) && AppendedAs(appends, v', name', c)
    ensures v == v' && name == name' && c != root
  {
    var i :| 0 <= i < |appends| && appends[i] == Append(v, name, c);
    var j :| 0 <= j < |appends| && appends[j] == Append(v', name', c);
    assert i == j;
  }

  lemma ChainPrefix<N>(appends: seq<Append<N>>, v: N, names: seq<string>, chain: seq<N>)
    requires Chain(appends, v, names, chain) && names != []
    ensures Chain(appends, v, names[..|names| - 1], chain[..|chain| - 1])
  {
    var names', chain' := names[..|names| - 1], chain[..|chain| - 1];
    forall i: nat | i < |names'| ensures Hangs(appends, v, names', chain', i) {
      assert Hangs(appends, v, names, chain, i);
    }
  }

  /** Two chains from the root that end at the same node are one. */
  lemma {:induction false} SameChain<N>(
    appends: seq<Append<N>>, root: N, names: seq<string>, chain: seq<N>, names': seq<string>, chain': seq<N>)
    requires OneParent(appends, root) && Chain(appends, root, names, chain) && Chain(appends, root, names', chain')
    requires names != [] && names' != [] && chain[|chain| - 1] == chain'[|chain'| - 1]
    ensures names == names'
    decreases |names|
  {
    var k, k' := |names| - 1, |names'| - 1;
    var v, v' := if k == 0 then root else chain[k - 1], if k' == 0 then root else chain'[k' - 1];
    assert Hangs(appends, root, names, chain, k) && Hangs(appends, root, names', chain', k');
    AppendedOnce(appends, root, v, names[k], v', names'[k'], chain[k]);
    if k > 0 {
      assert Hangs(appends, root, names, chain, k - 1);
      NotRoot(appends, root, chain[k - 1]);
    }
    if k' > 0 {
      assert Hangs(appends, root, names', chain', k' - 1);
      NotRoot(appends, root, chain'[k' - 1]);
    }
    if k > 0 {
      ChainPrefix(appends, root, names, chain);
      ChainPrefix(appends, root, names', chain');
      SameChain(appends, root, names[..k], chain[..k], names'[..k'], chain'[..k']);
      assert names == names[..k] + [names[k]] && names' == names'[..k'] + [names'[k']];
    }
  }

  lemma NotRoot<N>(appends: seq<Append<N>>, root: N, c: N)
    requires OneParent(appends, root)
    ensures forall v, name {:trigger AppendedAs(appends, v, name, c)} :: AppendedAs(appends, v, name, c) ==> c != root
  {
  }

  /** Names that lead somewhere lead along a chain. */
  lemma {:induction false} FollowedChain<N>(
    nodes: Tree<N>, appends: seq<Append<N>>, v: N, names: seq<string>, c: N) returns (chain: seq<N>)
    requires forall n :: n in nodes ==> nodes[n] == map[]
    requires DistinctSiblings(appends) && Follow(Built(nodes, appends), v, names) == To(c)
    ensures Chain(appends, v, names, chain) && c == if chain == [] then v else chain[|chain| - 1]
    decreases names
  {
    chain := [];
    if names != [] {
      var c1 := Child(Built(nodes, appends), v, names[0]).value;
      ChildrenAreAppended(nodes, appends, v, names[0], c1);
      var rest := FollowedChain(nodes, appends, c1, names[1..], c);
      chain := [c1] + rest;
      forall i: nat | i < |names| ensures Hangs(appends, v, names, chain, i) {
        if i > 0 { assert Hangs(appends, c1, names[1..], rest, i - 1); }
      }
    }
  }

  /** The nodes that the chosen appends put into the tree. */
  ghost function Appended<N>(appends: seq<Append<N>>, choice: seq<nat>): (chain: seq<N>)
    requires forall i :: 0 <= i < |choice| ==> choice[i] < |appends|
    ensures |chain| == |choice| && forall i :: 0 <= i < |chain| ==> chain[i] == appends[choice[i]].child
  {
    seq(|choice|, i requires 0 <= i < |choice| => appends[choice[i]].child)
  }

  /** The path is a slash and the slash-free names, each short enough, on a chain of the chosen nodes that
      ends at c. */
  ghost predicate PathOfChain<N>(
    appends: seq<Append<N>>, root: N, path: string, c: N, names: seq<string>, choice: seq<nat>)
  {
    && names != [] && path == "/" + Join(names) && SlashFree(names)
    && (forall i :: 0 <= i < |names| ==> |names[i]| < NAME_MAX)
    && (forall i :: 0 <= i < |choice| ==> choice[i] < |appends|)
    && Chain(appends, root, names, Appended(appends, choice)) && appends[choice[|choice| - 1]].child == c
  }

  /** c is not the root, and the path is that of a chain of appended nodes that ends at c. */
  ghost predicate Leads<N>(appends: seq<Append<N>>, root: N, path: string, c: N) {
    c != root && exists names, choice :: PathOfChain(appends, root, path, c, names, choice)
  }

  /** Which appends put the nodes of a chain into the tree. */
  lemma {:induction false} ChoiceFor<N>(
    appends: seq<Append<N>>, v: N, names: seq<string>, chain: seq<N>) returns (choice: seq<nat>)
    requires Chain(appends, v, names, chain)
    ensures |choice| == |chain| && forall i :: 0 <= i < |choice| ==> choice[i] < |appends|
    ensures Appended(appends, choice) == chain
  {
    choice := [];
    if names != [] {
      var k := |names| - 1;
      ChainPrefix(appends, v, names, chain);
      choice := ChoiceFor(appends, v, names[..k], chain[..k]);
      assert Hangs(appends, v, names, chain, k);
      var i: nat :| i < |appends| && appends[i].child == chain[k];
      choice := choice + [i];
      forall j | 0 <= j < |chain| ensures appends[choice[j]].child == chain[j] {
        assert j < k ==> chain[j] == chain[..k][j] == Appended(appends, choice[..k])[j];
      }
    }
  }

  /** What a lookup finds: in a tree built by appending, a path finds a node exactly if it leads there;
      all other paths, the ones without a leading slash among them, find nothing. */
  lemma ResolveFinds<N>(nodes: Tree<N>, appends: seq<Append<N>>, root: N, path: string, c: N)
    requires forall n :: n in nodes ==> nodes[n] == map[]
    requires DistinctSiblings(appends)
    ensures Resolve(Built(nodes, appends), root, path) == To(c) <==> Leads(appends, root, path, c)
  {
    if Resolve(Built(nodes, appends), root, path) == To(c) {
      FoundLeads(nodes, appends, root, path, c);
    }
    if Leads(appends, root, path, c) {
      var names, choice :| PathOfChain(appends, root, path, c, names, choice);
      PathOfNode(nodes, appends, root, names, Appended(appends, choice));
    }
  }

  lemma FoundLeads<N>(nodes: Tree<N>, appends: seq<Append<N>>, root: N, path: string, c: N)
    requires forall n :: n in nodes ==> nodes[n] == map[]
    requires DistinctSiblings(appends) && Resolve(Built(nodes, appends), root, path) == To(c)
    ensures Leads(appends, root, path, c)
  {
    var names := Split(path[1..]);
    var chain := FollowedChain(nodes, appends, root, names, c);
    var choice := ChoiceFor(appends, root, names, chain);
    JoinOfSplit("", path[1..]);
    SplitIsSlashFree("", path[1..]);
    FollowedShort(Built(nodes, appends), root, names);
    assert path == "/" + path[1..] && "" + path[1..] == path[1..];
    assert PathOfChain(appends, root, path, c, names, choice);
  }

  lemma {:induction false} FollowedShort<N>(tree: Tree<N>, v: N, names: seq<string>)
    requires Follow(tree, v, names) != Null
    ensures forall i :: 0 <= i < |names| ==> |names[i]| < NAME_MAX
    decreases names
  {
    if names != [] {
      FollowedShort(tree, Child(tree, v, names[0]).value, names[1..]);
      forall i | 0 <= i < |names| ensures |names[i]| < NAME_MAX {
        assert i > 0 ==> names[i] == names[1..][i - 1];
      }
    }
  }

  /** A node is found by the path of the names on its chain exactly when none of them has a slash,
      in a tree where every node has one parent and one name. */
  lemma PathFindsNode<N>(nodes: Tree<N>, appends: seq<Append<N>>, root: N, names: seq<string>, chain: seq<N>)
    requires forall n :: n in nodes ==> nodes[n] == map[]
    requires DistinctSiblings(appends) && OneParent(appends, root)
    requires names != [] && Chain(appends, root, names, chain)
    requires forall i :: 0 <= i < |names| ==> |names[i]| < NAME_MAX
    ensures Resolve(Built(nodes, appends), root, "/" + Join(names)) == To(chain[|chain| - 1]) <==> SlashFree(names)
  {
    var tree, path, c := Built(nodes, appends), "/" + Join(names), chain[|chain| - 1];
    assert Hangs(appends, root, names, chain, |names| - 1);
    NotRoot(appends, root, c);
    if SlashFree(names) {
      PathOfNode(nodes, appends, root, names, chain);
    }
    if Resolve(tree, root, path) == To(c) {
      assert path[1..] == Join(names);
      var names' := Split(Join(names));
      var chain' := FollowedChain(nodes, appends, root, names', c);
      SameChain(appends, root, names, chain, names', chain');
      SplitIsSlashFree("", Join(names));
    }
  }

  /** A node named a/b below the root 0 is not what the path /a/b means. */
  lemma SlashExample(nodes: Tree<nat>)
    requires nodes == map[0 := map[], 1 := map[]]
    ensures Resolve(Built(nodes, [Append(0, "a/b", 1)]), 0, "/a/b") == Null
  {
    var a := Append(0, "a/b", 1);
    var tree := Built(nodes, [a]);
    assert Built(nodes, [a][..0]) == nodes && [a][|[a]| - 1] == a;
    assert tree[0] == nodes[0]["a/b" := To(1)];
    assert "a" !in tree[0] by { assert |"a"| == 1; }
    var path := "/a/b";
    assert path[1..] == "a/b";
    var rest := "b";
    assert "a/b"[1..] == "/b" && "/b"[1..] == rest && rest[1..] == "";
    assert "" + ['a'] == "a" && "" + ['b'] == "b";
    assert SplitFrom("", rest) == ["b"];
    assert Split("a/b") == ["a"] + ["b"];
  }
}
