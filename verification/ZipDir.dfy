/** ZipDir.go: the directory tree of an archive, built once from its flat list of names. */
module ZipDirs {
  import opened Basics
  import opened Paths
  import opened ZipTrees

  datatype Found = Dir(dir: ZipDir) | File(entry: nat) | NotThere

  /** What opening the archive gives: the names in order, or a failure. */
  datatype Opening = Opened(names: seq<string>) | Refused(error: Error)

  class ZipDir {
    const entry: int                            // the archive entry it was made for, -1 for the root
    var subDirs: Option<map<string, ZipDir>>    // nil in a root that has not read its archive
    var files: map<string, nat>                 // ZipFiles, by the entry each stands for
    ghost var nodes: map<Path, ZipDir>          // in the root: all directories of the tree by path

    /** A root, before the archive is read. */
    constructor Root()
      ensures entry == -1 && subDirs.None? && files == map[] && nodes == map[]
    {
      entry, subDirs, files, nodes := -1, None, map[], map[];
    }

    constructor (entry: nat)
      ensures this.entry == entry && subDirs == Some(map[]) && files == map[]
    {
      this.entry, subDirs, files, nodes := entry, Some(map[]), map[], map[];
    }

    /** A root that has read its archive. */
    ghost predicate Ready()
      reads this, Nodes(nodes)
    {
      Shape(nodes) && nodes[[]] == this
    }

    /** Reads the archive unless that was done before. `opening` is what it finds when it tries. */
    method ReadArchive(opening: Opening) returns (st: Status)
      requires entry == -1 && if subDirs.None? then files == map[] else Ready()
      modifies this
      ensures st.Ok? <==> subDirs.Some?
      ensures st.Ok? ==> Ready()
      ensures old(subDirs).Some? ==> nodes == old(nodes) && subDirs == old(subDirs) && files == old(files)
      ensures old(subDirs).None? && opening.Refused? ==>
                st == Failed(opening.error) && subDirs.None? && files == map[]
      ensures old(subDirs).None? && opening.Opened? ==>
                st.Ok? && View(nodes) == Build(Listing(opening.names), |opening.names|)
    {
      if subDirs.Some? {
        return Ok;
      }
      match opening
      case Refused(error) =>
        st := Failed(error);
      case Opened(names) =>
        nodes := InsertAll(names);
        st := Ok;
    }

    /** The outer loop: all entries in the order of the archive. */
    method InsertAll(names: seq<string>) returns (ghost nodes': map<Path, ZipDir>)
      requires entry == -1
      modifies this
      ensures subDirs.Some? && Shape(nodes') && nodes'[[]] == this
      ensures View(nodes') == Build(Listing(names), |names|)
    {
      subDirs, files := Some(map[]), map[];
      nodes' := map[[] := this];
      EmptyShape(this, nodes');
      ghost var items, tree, owned: set<ZipDir> := Listing(names), EMPTY, {this};
      for k := 0 to |names|
        invariant Underway(this, nodes', Cursor(tree, []), owned) && this in owned && fresh(owned - {this})
        invariant tree == Build(items, k)
      {
        nodes', owned := InsertEntry(this, Split(names[k]), items[k], k, nodes', tree, owned);
        BuildStep(items, k);
        tree := Insert(tree, items[k], k);
      }
      assert Linked(nodes', []);
    }

    /** Sub-folders before files. */
    function Lookup(name: string): Found
      requires subDirs.Some?
      reads this
    {
      if name in subDirs.value then Dir(subDirs.value[name])
      else if name in files then File(files[name])
      else NotThere
    }

    lemma LookupFinds(nodes: map<Path, ZipDir>, at: Path, name: string)
      requires Shape(nodes) && at in nodes && nodes[at] == this
      ensures subDirs.Some?
      ensures match Lookup(name)
        case Dir(d) => Child(nodes, at, name, d)
        case File(e) => Find(View(nodes), at + [name]) == FileNode(e)
        case NotThere => Find(View(nodes), at + [name]) == NoNode
    {
      assert Linked(nodes, at);
      assert (at + [name])[..|at|] == at;
    }

    /** Lookups along a path on the mount, of which the first reads the archive. */
    method LookupPath(path: Path, opening: Opening) returns (node: Node, st: Status)
      requires entry == -1 && if subDirs.None? then files == map[] else Ready()
      modifies this
      ensures st.Ok? ==> Ready() && node == Find(View(nodes), path)
      ensures old(subDirs).None? && opening.Opened? ==>
                st.Ok? && View(nodes) == Build(Listing(opening.names), |opening.names|)
      ensures old(subDirs).None? && opening.Refused? ==> st == Failed(opening.error)
      ensures old(subDirs).Some? ==> st.Ok? && nodes == old(nodes)
    {
      node := NoNode;
      st := ReadArchive(opening);
      if st.Ok? {
        node := FindPath(path);
      }
    }

    /** Lookups along a path, from the root. */
    method FindPath(path: Path) returns (node: Node)
      requires Ready()
      ensures Ready() && node == Find(View(nodes), path)
    {
      var dir := this;
      for i := 0 to |path|
        invariant Ready() && path[..i] in nodes && nodes[path[..i]] == dir
      {
        assert path[..i] + [path[i]] == path[..i + 1];
        dir.LookupFinds(nodes, path[..i], path[i]);
        var found := dir.Lookup(path[i]);
        match found
        case Dir(d) =>
          dir := d;
        case File(e) =>
          NothingBelow(nodes, path, i + 1);
          return if i + 1 == |path| then FileNode(e) else NoNode;
        case NotThere =>
          NothingBelow(nodes, path, i + 1);
          return NoNode;
      }
      assert path[..|path|] == path;
      node := DirNode(dir.entry);
    }
  }

  ghost function Nodes(nodes: map<Path, ZipDir>): set<ZipDir> {
    set path | path in nodes :: nodes[path]
  }

  /** The directory's SubDirs are exactly the nodes one name further. */
  ghost predicate Linked(nodes: map<Path, ZipDir>, path: Path)
    requires path in nodes
    reads Nodes(nodes)`subDirs
  {
    && nodes[path].subDirs.Some?
    && (forall name | name in nodes[path].subDirs.value :: Child(nodes, path, name, nodes[path].subDirs.value[name]))
    && (forall name | path + [name] in nodes :: name in nodes[path].subDirs.value)
  }

  ghost predicate Child(nodes: map<Path, ZipDir>, path: Path, name: string, dir: ZipDir) {
    path + [name] in nodes && nodes[path + [name]] == dir
  }

  /** Different paths, different objects. */
  ghost predicate Injective(nodes: map<Path, ZipDir>) {
    forall p, q | p in nodes && q in nodes && nodes[p] == nodes[q] :: p == q
  }

  ghost predicate ParentIn(nodes: map<Path, ZipDir>, path: Path) {
    path == [] || path[..|path| - 1] in nodes
  }

  ghost predicate Shape(nodes: map<Path, ZipDir>)
    reads Nodes(nodes)`subDirs
  {
    && [] in nodes && Injective(nodes)
    && (forall path {:trigger ParentIn(nodes, path)} | path in nodes :: ParentIn(nodes, path))
    && (forall path {:trigger Linked(nodes, path)} | path in nodes :: Linked(nodes, path))
  }

  ghost function View(nodes: map<Path, ZipDir>): Tree
    reads Nodes(nodes)`files
  {
    map path | path in nodes :: Folder(nodes[path].entry, nodes[path].files)
  }

  method AddFile(dir: ZipDir, name: string, entry: nat, ghost nodes: map<Path, ZipDir>, ghost at: Path)
    requires Shape(nodes) && at in nodes && nodes[at] == dir
    modifies dir`files
    ensures Shape(nodes)
    ensures View(nodes) == old(View(nodes))[at := Folder(dir.entry, old(dir.files)[name := entry])]
  {
    dir.files := dir.files[name := entry];
    forall path | path in nodes
      ensures Linked(nodes, path)
    {
      assert old(Linked(nodes, path));
    }
  }

  method AddDir(dir: ZipDir, name: string, entry: nat, ghost nodes: map<Path, ZipDir>, ghost at: Path)
      returns (d: ZipDir, ghost nodes': map<Path, ZipDir>)
    requires Shape(nodes) && at in nodes && nodes[at] == dir && dir.subDirs.Some? && name !in dir.subDirs.value
    modifies dir`subDirs
    ensures fresh(d) && nodes' == nodes[at + [name] := d] && at + [name] !in nodes
    ensures Shape(nodes')
    ensures View(nodes') == old(View(nodes))[at + [name] := Folder(entry, map[])]
  {
    assert Linked(nodes, at);
    d := new ZipDir(entry);
    nodes' := nodes[at + [name] := d];
    dir.subDirs := Some(dir.subDirs.value[name := d]);
    ShapeAfterAddDir(nodes, nodes', at, name, d);
    ViewAfterAddDir(nodes, nodes', at, name, d);
  }

  /** The state after AddDir has linked the new node d. */
  twostate predicate DirAdded(nodes: map<Path, ZipDir>, new nodes': map<Path, ZipDir>,
      new at: Path, new name: string, new d: ZipDir)
    reads Nodes(nodes), d
  {
    && old(Shape(nodes)) && at in nodes && at + [name] !in nodes
    && nodes' == nodes[at + [name] := d] && fresh(d) && d.subDirs == Some(map[]) && d.files == map[]
    && old(nodes[at].subDirs).Some? && nodes[at].subDirs == Some(old(nodes[at].subDirs).value[name := d])
    && (forall p | p in nodes && nodes[p] != nodes[at] :: nodes[p].subDirs == old(nodes[p].subDirs))
    && (forall p | p in nodes :: nodes[p].files == old(nodes[p].files))
  }

  twostate lemma ViewAfterAddDir(nodes: map<Path, ZipDir>, new nodes': map<Path, ZipDir>,
      new at: Path, new name: string, new d: ZipDir)
    requires DirAdded(nodes, nodes', at, name, d)
    ensures View(nodes') == old(View(nodes))[at + [name] := Folder(d.entry, map[])]
  {}

  twostate lemma ShapeAfterAddDir(nodes: map<Path, ZipDir>, new nodes': map<Path, ZipDir>,
      new at: Path, new name: string, new d: ZipDir)
    requires DirAdded(nodes, nodes', at, name, d)
    ensures Shape(nodes')
  {
    forall path | path in nodes'
      ensures Linked(nodes', path) && ParentIn(nodes', path)
    {
      LinkedAfterAddDir(nodes, nodes', at, name, d, path);
      if path == at + [name] {
        assert path[..|path| - 1] == at;
      } else {
        assert ParentIn(nodes, path);
      }
    }
  }

  /** A new node has no children, and gives its parent one more. */
  twostate lemma LinkedAfterAddDir(nodes: map<Path, ZipDir>, new nodes': map<Path, ZipDir>,
      new at: Path, new name: string, new d: ZipDir, new path: Path)
    requires DirAdded(nodes, nodes', at, name, d)
    requires path in nodes'
    ensures Linked(nodes', path)
  {
    if path == at + [name] {
      forall x: string
        ensures path + [x] !in nodes'
      {
        assert path + [x] in nodes ==> ParentIn(nodes, path + [x]);
        assert (path + [x])[..|path + [x]| - 1] == path;
      }
    } else {
      assert old(Linked(nodes, path));
      forall x: string
        ensures path + [x] == at + [name] <==> path == at && x == name
      {
        if path + [x] == at + [name] {
          assert (path + [x])[..|path|] == path && (at + [name])[..|at|] == at && (path + [x])[|path|] == x;
        }
      }
      forall x | x in nodes'[path].subDirs.value
        ensures Child(nodes', path, x, nodes'[path].subDirs.value[x])
      {
        assert (path == at && x == name) || old(Child(nodes, path, x, nodes[path].subDirs.value[x]));
      }
      forall x | path + [x] in nodes'
        ensures x in nodes'[path].subDirs.value
      {}
    }
  }

  /** The objects make up the tree, `dir` stands where the cursor is, and `owned` holds all of them. */
  ghost predicate Underway(dir: ZipDir, nodes: map<Path, ZipDir>, w: Cursor, owned: set<ZipDir>)
    reads Nodes(nodes)
  {
    Shape(nodes) && w.at in nodes && nodes[w.at] == dir && View(nodes) == w.tree && Nodes(nodes) <= owned
  }

  /** One turn of the inner loop, for one path component. */
  method Step(dir: ZipDir, name: string, last: bool, entry: nat,
      ghost nodes: map<Path, ZipDir>, ghost w: Cursor, ghost owned: set<ZipDir>)
      returns (next: ZipDir, ghost nodes': map<Path, ZipDir>, ghost owned': set<ZipDir>)
    requires Underway(dir, nodes, w, owned) && [] in nodes
    modifies dir`subDirs, dir`files
    ensures Underway(next, nodes', Advance(w, name, last, entry), owned') && [] in nodes' && nodes'[[]] == nodes[[]]
    ensures next in owned' && owned <= owned' && fresh(owned' - owned)
  {
    next, nodes', owned' := dir, nodes, owned;
    assert Linked(nodes, w.at);
    if name != "" {
      if name in dir.subDirs.value {
        next := dir.subDirs.value[name];
        assert Child(nodes, w.at, name, next);
      } else if last {
        AddFile(dir, name, entry, nodes, w.at);
      } else {
        var d;
        d, nodes' := AddDir(dir, name, entry, nodes, w.at);
        owned' := owned + {d};
      }
    }
  }

  /** The inner loop: one entry of the archive. */
  method InsertEntry(root: ZipDir, components: seq<string>, ghost item: Item, entry: nat,
      ghost nodes: map<Path, ZipDir>, ghost tree: Tree, ghost owned: set<ZipDir>)
      returns (ghost nodes': map<Path, ZipDir>, ghost owned': set<ZipDir>)
    requires Underway(root, nodes, Cursor(tree, []), owned) && root in owned && components == item.Components()
    modifies owned
    ensures Underway(root, nodes', Cursor(Insert(tree, item, entry), []), owned') && owned <= owned'
    ensures fresh(owned' - owned)
  {
    var dir := root;
    ghost var w, trail := Cursor(tree, []), [Cursor(tree, [])];
    nodes', owned' := nodes, owned;
    for i := 0 to |components|
      invariant [] in nodes' && nodes'[[]] == root && dir in owned' && owned <= owned' && fresh(owned' - owned)
      invariant Underway(dir, nodes', w, owned') && Trail(trail, tree, components, entry) && |trail| == i + 1
      invariant trail[i] == w
    {
      trail := TrailGrows(trail, tree, components, entry);
      dir, nodes', owned' := Step(dir, components[i], i == |components| - 1, entry, nodes', w, owned');
      w := trail[i + 1];
    }
    TrailEnds(trail, tree, item, entry);
  }

  /** The cursors of the inner loop so far. */
  ghost predicate Trail(trail: seq<Cursor>, tree: Tree, components: seq<string>, entry: nat) {
    && [] in tree && 0 < |trail| <= |components| + 1
    && forall k {:trigger trail[k]} | 0 <= k < |trail| :: trail[k] == Walk(tree, components, k, entry)
  }

  lemma TrailGrows(trail: seq<Cursor>, tree: Tree, components: seq<string>, entry: nat) returns (more: seq<Cursor>)
    requires Trail(trail, tree, components, entry) && |trail| <= |components|
    ensures Trail(more, tree, components, entry) && |more| == |trail| + 1 && trail[|trail| - 1].Valid()
    ensures more[|trail|] == Advance(trail[|trail| - 1], components[|trail| - 1], |trail| == |components|, entry)
  {
    more := trail + [Walk(tree, components, |trail|, entry)];
  }

  lemma TrailEnds(trail: seq<Cursor>, tree: Tree, item: Item, entry: nat)
    requires Trail(trail, tree, item.Components(), entry) && |trail| == |item.Components()| + 1
    ensures trail[|trail| - 1].tree == Insert(tree, item, entry)
  {}

  lemma EmptyShape(root: ZipDir, nodes: map<Path, ZipDir>)
    requires nodes == map[[] := root] && root.subDirs == Some(map[])
    ensures Shape(nodes)
  {}

  /** Nothing lies below a path that is not a folder. */
  lemma {:induction false} NothingBelow(nodes: map<Path, ZipDir>, path: Path, n: nat)
    requires Shape(nodes) && n <= |path| && path[..n] !in nodes
    ensures path !in nodes
    ensures n < |path| ==> path[..|path| - 1] !in nodes
    decreases |path| - n
  {
    if n == |path| {
      assert path[..n] == path;
    } else {
      assert path[..n + 1][..n] == path[..n];
      assert path[..n + 1] in nodes ==> ParentIn(nodes, path[..n + 1]);
      NothingBelow(nodes, path, n + 1);
    }
  }
}
