/** The virtual file system (sys/fs/vfs.c, sys/include/sys/vnode.h): vnodes whose children are hash
    maps, and the lookup of a vnode by path. */
module Vfs {
  import opened HashMap
  import opened Paths
  import Bits

  datatype VType = VNON | VREG | VDIR | VBLK | VCHR | VBAD
  datatype VState = VSTATE_UNINIT | VSTATE_CONSTRUCTED | VSTATE_DESTROYING | VSTATE_DEAD

  const V_ROOT: nat := 1
  const V_MOUNTPOINT: nat := 8

  class Vnode {
    const name: string
    const vType: VType
    const children: Table<Vnode>
    var vState: VState
    var vFlags: nat
    var nChildren: nat

    constructor (name: string, vType: VType, vFlags: nat, children: Table<Vnode>)
      ensures this.name == name && this.vType == vType && this.children == children
      ensures this.vFlags == vFlags && vState == VSTATE_CONSTRUCTED && nChildren == 0
    {
      this.name, this.vType, this.children := name, vType, children;
      this.vFlags, this.vState, this.nChildren := vFlags, VSTATE_CONSTRUCTED, 0;
    }
  }

  /** vfs_make_vnode: name is a buffer that holds a NUL; a name of NAME_MAX characters or more is
      refused */
  method MakeVnode(hash: string -> nat, name: seq<char>, vType: VType, isMountpoint: bool) returns (v: Vnode?)
    requires '\0' in name
    ensures v == null <==> |CString(name)| >= NAME_MAX
    ensures v != null ==> fresh(v) && v.name == CString(name) && v.vType == vType && v.vState == VSTATE_CONSTRUCTED
    ensures v != null ==> v.vFlags == (if isMountpoint then V_MOUNTPOINT else 0) && v.nChildren == 0
    ensures v != null ==> fresh(v.children) && fresh(v.children.data)
    ensures v != null ==> v.children.Valid() && v.children.Contents() == map[]
    ensures v != null ==> v.children.tableSize == 2 && v.children.hash == hash
  {
    if |CString(name)| >= NAME_MAX {
      return null;
    }
    PowersAreTableSizes(1);
    assert Bits.Pow2(1) == 2;
    var children := Table.Create(hash, 2);
    v := new Vnode(CString(name), vType, if isMountpoint then V_MOUNTPOINT else 0, children);
  }

  lemma BuiltStep<N>(tree: Tree<N>, appends: seq<Append<N>>, i: nat)
    requires i < |appends|
    ensures Built(tree, appends[..i + 1]) == Built(Built(tree, appends[..i]), [appends[i]])
  {
    assert appends[..i + 1][..i] == appends[..i];
    assert Built(Built(tree, appends[..i]), [appends[i]][..0]) == Built(tree, appends[..i]);
  }

  /** Each name is one of a node of the set. */
  ghost predicate ValuesIn<N>(names: map<string, Ref<N>>, nodes: set<N>) {
    forall k {:trigger ValueIn(names, nodes, k)} :: k in names ==> ValueIn(names, nodes, k)
  }

  ghost predicate ValueIn<N>(names: map<string, Ref<N>>, nodes: set<N>, k: string)
    requires k in names
  {
    names[k].To? && names[k].value in nodes
  }

  lemma ValuesStay<N>(
    names: map<string, Ref<N>>, names': map<string, Ref<N>>, nodes: set<N>, name: string, c: N, ok: bool)
    requires ValuesIn(names, nodes) && c in nodes
    requires if ok then names' == names[name := To(c)] else Submap(names', names)
    ensures ValuesIn(names', nodes)
  {
    forall k | k in names' ensures ValueIn(names', nodes, k) {
      if !ok { assert KeptAt(names', names, k); }
      assert k in names ==> ValueIn(names, nodes, k);
    }
  }

  lemma ValuesInMore<N>(names: map<string, Ref<N>>, nodes: set<N>, nodes': set<N>)
    requires ValuesIn(names, nodes) && nodes <= nodes'
    ensures ValuesIn(names, nodes')
  {
    forall k | k in names ensures ValueIn(names, nodes', k) { assert ValueIn(names, nodes, k); }
  }

  /** Append i finds the names of its parent's children and its own jamming any table. */
  ghost predicate JamsAt<N>(hash: string -> nat, tree: Tree<N>, appends: seq<Append<N>>, i: nat)
    requires i < |appends|
  {
    var built, a := Built(tree, appends[..i]), appends[i];
    a.parent in built && Jammed(hash, built[a.parent].Keys + {a.name}, MAX_TABLE_SIZE)
  }

  lemma BuiltOnce<N>(tree: Tree<N>, tree': Tree<N>, a: Append<N>, ok: bool)
    requires tree'.Keys == tree.Keys && a.parent in tree
    requires forall v {:trigger tree'[v]} :: v in tree && v != a.parent ==> tree'[v] == tree[v]
    requires ok ==> tree'[a.parent] == tree[a.parent][a.name := To(a.child)]
    ensures ok ==> tree' == Built(tree, [a])
  {
    assert Built(tree, [a][..0]) == tree;
  }

  /** The vnodes of the system. The hash function of their tables is any function of the name. */
  class FileSystem {
    const hash: string -> nat
    var root: Vnode
    ghost var nodes: set<Vnode>

    ghost var repr: set<object>

    ghost predicate NodeOk(v: Vnode)
      reads this, repr
    {
      && v.children in repr && v.children.data in repr && v.children.Valid() && v.children.hash == hash
      && ValuesIn(v.children.Contents(), nodes)
    }

    ghost predicate Apart(v: Vnode, w: Vnode)
      reads this, repr
    {
      v != w && v.children in repr && w.children in repr ==>
        v.children != w.children && v.children.data != w.children.data
    }

    ghost predicate Valid()
      reads this, repr
    {
      && root in nodes && this !in repr
      && (forall v {:trigger NodeOk(v)} :: v in nodes ==> NodeOk(v))
      && (forall v, w {:trigger Apart(v, w)} :: v in nodes && w in nodes ==> Apart(v, w))
    }

    ghost function Names(v: Vnode): map<string, Ref<Vnode>>
      reads this, repr
    {
      if v.children in repr then v.children.Contents() else map[]
    }

    /** The children of every vnode, by name. */
    ghost function Nodes(): Tree<Vnode>
      reads this, repr
    {
      map v | v in nodes :: Names(v)
    }

    /** vfs_init */
    constructor (hash: string -> nat)
      ensures Valid() && fresh(root) && fresh(repr) && nodes == {root} && Nodes() == map[root := map[]]
      ensures this.hash == hash
      ensures root.name == "" && root.vType == VDIR && root.vFlags == V_MOUNTPOINT + V_ROOT
    {
      this.hash := hash;
      var r := MakeVnode(hash, ['\0'], VDIR, true);
      assert CString(['\0']) == "";
      root := r;
      nodes := {r};
      repr := {r.children, r.children.data};
      new;
      assert Bits.Or(V_MOUNTPOINT, V_ROOT) == 9;
      r.vFlags := Bits.Or(r.vFlags, V_ROOT);
    }

    /** vfs_make_vnode, the vnode becoming one of the system's */
    method NewVnode(name: seq<char>, vType: VType, isMountpoint: bool) returns (v: Vnode?)
      requires Valid() && '\0' in name
      modifies this`nodes, this`repr
      ensures Valid() && fresh(repr - old(repr)) && old(repr) <= repr
      ensures v == null <==> |CString(name)| >= NAME_MAX
      ensures v == null ==> nodes == old(nodes) && Nodes() == old(Nodes())
      ensures v != null ==> fresh(v) && v.name == CString(name) && v.vType == vType
      ensures v != null ==> v.vFlags == (if isMountpoint then V_MOUNTPOINT else 0) && v.nChildren == 0
      ensures v != null ==> nodes == old(nodes) + {v} && Nodes() == old(Nodes())[v := map[]]
    {
      v := MakeVnode(hash, name, vType, isMountpoint);
      if v != null {
        Adopt(v);
      }
    }

    method Adopt(v: Vnode)
      requires Valid() && v !in nodes && v.children !in repr && v.children.data !in repr && this != v.children as object
      requires v.children.Valid() && v.children.Contents() == map[] && v.children.hash == hash
      modifies this`nodes, this`repr
      ensures Valid() && nodes == old(nodes) + {v} && repr == old(repr) + {v.children, v.children.data}
      ensures forall w {:trigger Names(w)} :: w in nodes ==> Names(w) == if w == v then map[] else old(Names(w))
    {
      ghost var before := nodes;
      nodes := nodes + {v};
      repr := repr + {v.children, v.children.data};
      forall w | w in before ensures NodeOk(w) && Names(w) == old(Names(w)) {
        assert old(NodeOk(w));
        ValuesInMore(w.children.Contents(), before, nodes);
      }
      assert NodeOk(v);
      forall w, u | w in nodes && u in nodes ensures Apart(w, u) {
        assert w in before ==> NodeOk(w) && old(NodeOk(w));
        assert u in before ==> NodeOk(u) && old(NodeOk(u));
        assert w in before && u in before ==> old(Apart(w, u));
      }
    }

    /** A run of vfs_append_child builds the tree it should, unless a put fails; and a put fails only
        if the names of one parent's children and the new one jam any table. */
    method AppendAll(appends: seq<Append<Vnode>>) returns (ok: bool)
      requires Valid()
      requires forall a {:trigger a in appends} :: a in appends ==>
                 a.parent in nodes && a.child in nodes && a.name == a.child.name
      modifies this`repr, repr
      ensures Valid() && (ok ==> Nodes() == Built(old(Nodes()), appends))
      ensures !ok ==>
                exists i {:trigger JamsAt(hash, old(Nodes()), appends, i)} ::
                  0 <= i < |appends| && JamsAt(hash, old(Nodes()), appends, i)
    {
      ghost var before := Nodes();
      ok := true;
      var i := 0;
      while i < |appends|
        invariant i <= |appends| && Valid() && fresh(repr - old(repr)) && old(repr) <= repr
        invariant Nodes() == Built(before, appends[..i])
      {
        var a := appends[i];
        assert a in appends && NodeOk(a.parent) && Nodes()[a.parent] == Names(a.parent);
        ok := AppendChild(a.parent, a.child);
        if !ok {
          assert JamsAt(hash, before, appends, i);
          return;
        }
        BuiltStep(before, appends, i);
        i := i + 1;
      }
      assert appends[..i] == appends;
    }

    /** vfs_append_child; ok is the outcome of the put, which the code does not look at. It is a
        success if the parent's table has room, and otherwise unless the names jam any table. */
    method AppendChild(parent: Vnode?, child: Vnode) returns (ok: bool)
      requires Valid() && child in nodes && (parent != null ==> parent in nodes)
      modifies this`repr
      modifies (if parent == null then root else parent).children
      modifies (if parent == null then root else parent).children.data
      ensures Valid() && fresh(repr - old(repr)) && old(repr) <= repr
      ensures var p := if parent == null then root else parent;
              && (ok ==> Nodes() == Built(old(Nodes()), [Append(p, child.name, child)]))
              && (old(p.children.Valid() && p.children.HasRoom(child.name)) ==> ok)
              && (!ok ==>
                    && Submap(Names(p), old(Names(p)))
                    && Jammed(hash, old(Names(p)).Keys + {child.name}, MAX_TABLE_SIZE))
              && forall v {:trigger Names(v)} :: v in nodes && v != p ==> Names(v) == old(Names(v))
    {
      ghost var before := Nodes();
      var p := if parent == null then root else parent;
      ok := PutChild(p, child);
      BuiltOnce(before, Nodes(), Append(p, child.name, child), ok);
    }

    method PutChild(p: Vnode, child: Vnode) returns (ok: bool)
      requires Valid() && child in nodes && p in nodes
      modifies this`repr, p.children, p.children.data
      ensures Valid() && fresh(repr - old(repr)) && old(repr) <= repr
      ensures ok ==> Names(p) == old(Names(p))[child.name := To(child)]
      ensures !ok ==> Submap(Names(p), old(Names(p))) && Jammed(hash, old(Names(p)).Keys + {child.name}, MAX_TABLE_SIZE)
      ensures old(p.children.Valid() && p.children.HasRoom(child.name)) ==> ok
      ensures forall v {:trigger Names(v)} :: v in nodes && v != p ==> Names(v) == old(Names(v))
    {
      assert NodeOk(p);
      ghost var names := p.children.Contents();
      ok := p.children.Put(child.name, To(child));
      repr := repr + {p.children.data};
      forall v | v in nodes && v != p ensures NodeOk(v) && Names(v) == old(Names(v)) {
        assert old(NodeOk(v) && Apart(v, p));
      }
      ValuesStay(names, p.children.Contents(), nodes, child.name, child, ok);
      assert NodeOk(p);
      forall v, w | v in nodes && w in nodes ensures Apart(v, w) {
        assert old(NodeOk(v) && NodeOk(w) && Apart(v, w));
      }
    }

    /** name2vnode: name is a buffer that holds a NUL */
    method Name2Vnode(name: seq<char>, parent: Vnode) returns (r: Ref<Vnode>)
      requires Valid() && parent in nodes && '\0' in name
      ensures r == Child(Nodes(), parent, CString(name)) && (r.To? ==> r.value in nodes)
    {
      assert NodeOk(parent);
      r := parent.children.Get(CString(name));
      if r.To? { assert ValueIn(parent.children.Contents(), nodes, CString(name)); }
    }

    /** path2vnode: path is a buffer that holds a NUL */
    method Path2Vnode(path: seq<char>) returns (r: Ref<Vnode>)
      requires Valid() && '\0' in path
      ensures r == Resolve(Nodes(), root, CString(path))
      ensures r.To? ==> path[0] == '/' && r.value != root
    {
      ghost var text, tree := CString(path), Nodes();
      if path[0] != '/' {
        return Null;
      }
      ghost var meant := Follow(tree, root, Split(text[1..]));
      var current := root;
      var ptr := 1;
      var fname := new char[NAME_MAX + 1](_ => '\0');
      var fnameIdx := 0;
      while true
        invariant 1 <= ptr <= |text| && fnameIdx <= NAME_MAX && fname.Length == NAME_MAX + 1
        invariant Nodes() == tree && Valid() && current in nodes && '\0' !in fname[..fnameIdx]
        invariant meant == Follow(tree, current, SplitFrom(fname[..fnameIdx], text[ptr..]))
        decreases |text| - ptr
      {
        ghost var acc, rest := fname[..fnameIdx], text[ptr..];
        TextAt(path, ptr);
        if fnameIdx >= NAME_MAX {
          FollowLongName(tree, current, acc, rest);
          return Null;
        }
        if path[ptr] == '/' || path[ptr] == '\0' {
          FollowAtName(tree, current, acc, rest);
          var found := TakeName(fname, fnameIdx, current);
          if found == Null {
            return Null;
          }
          current := found.value;
          fnameIdx := 0;
          ptr := ptr + 1;
          if path[ptr - 1] == '\0' {
            return if current != root then To(current) else Null;
          }
          continue;
        }
        FollowInName(tree, current, acc, rest);
        fname[fnameIdx] := path[ptr];
        fnameIdx := fnameIdx + 1;
        ptr := ptr + 1;
        assert fname[..fnameIdx] == acc + [rest[0]];
      }
    }

    /** path2vnode in a system whose vnodes were appended one by one under distinct sibling names: a path
        finds a vnode exactly if it leads there. */
    method FindAppended(path: seq<char>, ghost before: Tree<Vnode>, ghost appends: seq<Append<Vnode>>)
      returns (r: Ref<Vnode>)
      requires Valid() && '\0' in path && Nodes() == Built(before, appends)
      requires (forall n :: n in before ==> before[n] == map[]) && DistinctSiblings(appends)
      ensures forall c: Vnode {:trigger To(c)} :: r == To(c) <==> Leads(appends, root, CString(path), c)
    {
      r := Path2Vnode(path);
      forall c: Vnode ensures r == To(c) <==> Leads(appends, root, CString(path), c) {
        ResolveFinds(before, appends, root, CString(path), c);
      }
    }

    /** path2vnode, lines 56-68: the name read so far is closed, looked up and cleared. */
    method TakeName(fname: array<char>, fnameIdx: nat, current: Vnode) returns (found: Ref<Vnode>)
      requires Valid() && current in nodes && fname !in repr
      requires fnameIdx < fname.Length && '\0' !in fname[..fnameIdx]
      modifies fname
      ensures found == Child(Nodes(), current, old(fname[..fnameIdx])) && (found.To? ==> found.value in nodes)
    {
      ghost var acc := fname[..fnameIdx];
      fname[fnameIdx] := '\0';
      CStringOf(acc, fname[fnameIdx..]);
      assert fname[..] == acc + fname[fnameIdx..];
      found := Name2Vnode(fname[..], current);
      forall i | 0 <= i < fname.Length { fname[i] := '\0'; }
    }
  }
}
