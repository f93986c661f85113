/** Dir.go: the nodes of the mounted tree, which cache the backend's directories. */
module Dirs {
  import opened Basics
  import opened Paths
  import opened Namespaces
  import opened FileSystems

  /** What the backend says about an entry, as far as it matters here. */
  datatype Attrs = Attrs(name: string, kind: Kind)

  /** How many of these satisfy f. */
  function CountIf(all: seq<Attrs>, f: Attrs -> bool): nat {
    if all == [] then 0 else CountIf(all[..|all| - 1], f) + if f(all[|all| - 1]) then 1 else 0
  }

  lemma {:induction false} AtMostOne(all: seq<Attrs>, f: Attrs -> bool)
    requires forall i, j | 0 <= i < j < |all| :: !(f(all[i]) && f(all[j]))
    ensures CountIf(all, f) == if exists a :: a in all && f(a) then 1 else 0
  {
    if all != [] {
      var before, last := all[..|all| - 1], all[|all| - 1];
      AtMostOne(before, f);
      assert all == before + [last];
    }
  }

  lemma SameShown(a: string, b: string)
    ensures a + "@" == b + "@" ==> a == b
  {
    assert (a + "@")[..|a + "@"| - 1] == a && (b + "@")[..|b + "@"| - 1] == b;
  }

  /** These have been picked from the first i of `all`, each once. */
  ghost predicate Picked(entered: seq<Attrs>, all: seq<Attrs>, i: nat) {
    i <= |all| && Distinct(entered) && forall a | a in entered :: a in all[..i]
  }

  lemma PickedNext(entered: seq<Attrs>, all: seq<Attrs>, i: nat)
    requires Distinct(all) && i < |all| && Picked(entered, all, i)
    ensures Picked(entered, all, i + 1) && Picked(entered + [all[i]], all, i + 1)
  {
    assert all[..i + 1] == all[..i] + [all[i]];
    forall a | a in entered
      ensures a.name != all[i].name
    {
      var k :| 0 <= k < i && all[..i][k] == a;
      assert all[k] == a;
    }
  }

  /** No name comes twice. */
  predicate Distinct(all: seq<Attrs>) {
    forall i, j | 0 <= i < j < |all| :: all[i].name != all[j].name
  }

  /** HdfsAccessor as the directory operations use it; this mount is its only client. */
  class Backend {
    const healthy: bool      // it refuses nothing it could do
    const overwrites: bool   // renaming a file to the name of another replaces that one
    const refusal: Error     // what it says when it refuses
    var tree: Tree

    constructor (healthy: bool, overwrites: bool, refusal: Error)
      ensures this.healthy == healthy && this.overwrites == overwrites && this.refusal == refusal
      ensures tree == map[[] := Directory]
    {
      this.healthy, this.overwrites, this.refusal, tree := healthy, overwrites, refusal, map[[] := Directory];
    }

    method Stat(path: string) returns (kind: Kind, st: Status)
      ensures st.Ok? ==> Components(path) in tree && tree[Components(path)] == kind
      ensures healthy && Components(path) in tree ==> st.Ok?
      ensures st.Failed? ==> st.error == if Components(path) in tree then refusal else NotExist
    {
      var works: bool := *;
      if (works || healthy) && Components(path) in tree {
        return tree[Components(path)], Ok;
      }
      kind, st := Regular, Failed(if Components(path) in tree then refusal else NotExist);
    }

    /** Everything in a directory, once. */
    method ReadDir(path: string) returns (all: seq<Attrs>, st: Status)
      ensures st.Ok? ==> forall a :: a in all <==> Has(Components(path), a)
      ensures Distinct(all) && (st.Failed? ==> st.error == refusal)
      ensures healthy && HasDirectory(tree, Components(path)) ==> st.Ok?
    {
      var works: bool := *;
      var p := Components(path);
      all := [];
      if (!works && !healthy) || !HasDirectory(tree, p) {
        return all, Failed(refusal);
      }
      var left := tree.Keys;
      while left != {}
        invariant left <= tree.Keys && Distinct(all)
        invariant forall a :: a in all <==> Has(p, a) && p + [a.name] !in left
        decreases |left|
      {
        var x :| x in left;
        forall a: Attrs
          ensures p + [a.name] == x <==> x != [] && Up(x) == p && Last(x) == a.name
        {
          ChildOf(p, a.name);
        }
        if x != [] && Up(x) == p && GoodName(Last(x)) {
          all := all + [Attrs(Last(x), tree[x])];
        }
        left := left - {x};
      }
      st := Ok;
    }

    /** The object in directory p. */
    predicate Has(p: Path, a: Attrs)
      reads this
    {
      GoodName(a.name) && p + [a.name] in tree && tree[p + [a.name]] == a.kind
    }

    method Mkdir(path: string) returns (st: Status)
      modifies this
      ensures st.Ok? ==> CanMake(old(tree), Components(path)) && tree == old(tree)[Components(path) := Directory]
      ensures st.Failed? ==> tree == old(tree) && st.error == refusal
      ensures healthy && CanMake(old(tree), Components(path)) ==> st.Ok?
    {
      var works: bool := *;
      if (!works && !healthy) || !CanMake(tree, Components(path)) {
        return Failed(refusal);
      }
      tree := tree[Components(path) := Directory];
      st := Ok;
    }

    /** What goes with a removed directory goes with it. */
    method Remove(path: string) returns (st: Status)
      modifies this
      ensures st.Ok? ==> tree == Without(old(tree), Components(path))
      ensures st.Failed? ==> tree == old(tree) && st.error == refusal
      ensures healthy && Components(path) != [] ==> (st.Ok? <==> Components(path) in old(tree))
    {
      var works: bool := *;
      if (!works && !healthy) || Components(path) !in tree || Components(path) == [] {
        return Failed(refusal);
      }
      tree := Without(tree, Components(path));
      st := Ok;
    }

    /** Moving a directory into itself is refused, and so is an existing target, unless a file `overwrites` a file. */
    method Rename(oldPath: string, newPath: string) returns (st: Status)
      modifies this
      ensures st.Ok? ==> CanMove(old(tree), Components(oldPath), Components(newPath), overwrites)
      ensures st.Ok? ==> tree == AfterMove(old(tree), Components(oldPath), Components(newPath))
      ensures st.Failed? ==> tree == old(tree) && st.error == refusal
      ensures healthy && CanMove(old(tree), Components(oldPath), Components(newPath), overwrites) ==> st.Ok?
    {
      var from, to := Components(oldPath), Components(newPath);
      var works: bool := *;
      if (!works && !healthy) || !CanMove(tree, from, to, overwrites) {
        return Failed(refusal);
      }
      tree := AfterMove(tree, from, to);
      st := Ok;
    }
  }

  class FileSystem {
    const backend: Backend
    const allowedPrefixes: seq<string>
    const expandZips: bool           // archives show as directories, under their name and "@"
    ghost var cache: Cache<Node>     // the nodes reachable from the root

    constructor (backend: Backend, allowedPrefixes: seq<string>, expandZips: bool)
      ensures this.backend == backend && this.allowedPrefixes == allowedPrefixes && this.expandZips == expandZips
      ensures cache == map[]
    {
      this.backend, this.allowedPrefixes, this.expandZips, cache := backend, allowedPrefixes, expandZips, map[];
    }

    /** A new root directory, with nothing cached yet. */
    method Root() returns (root: Node)
      requires [] in backend.tree && backend.tree[[]].Directory?
      modifies this
      ensures Valid() && fresh(root) && cache.Keys == {[]} && cache[[]].node == root && root.fileSystem == this
    {
      root := new Node.Root(this);
      cache := map[[] := Cell(root, "", None, Directory, map[])];
      assert forall p | p in cache ::
                Placed(cache, p) && Linked(cache, p) && Backed(cache, backend.tree, p) && Mirrored(p);
    }

    /** The name is one under which an archive's tree is shown. */
    predicate Shows(name: string) {
      expandZips && HasZipSuffix(name)
    }

    /** Directory p has an entry of that name, and it is allowed. */
    ghost predicate Sees(tree: Tree, p: Path, name: string) {
      GoodName(name) && p + [name] in tree && Allowed(allowedPrefixes, Render(p + [name]))
    }

    /** The name shows the tree of an archive that is seen. */
    ghost predicate SeesBeside(tree: Tree, p: Path, name: string) {
      Shows(name) && Sees(tree, p, Archive(name)) && tree[p + [Archive(name)]].Regular?
    }

    /** And it is a directory. */
    ghost predicate SeesDirectory(tree: Tree, p: Path, name: string) {
      Sees(tree, p, name) && tree[p + [name]].Directory?
    }

    /** The path leads from the root through directories that are seen. */
    ghost predicate Opens(tree: Tree, path: Path) {
      forall i {:trigger path[i]} | 0 <= i < |path| :: SeesDirectory(tree, path[..i], path[i])
    }

    lemma OpensStep(tree: Tree, path: Path, i: nat)
      requires i < |path|
      ensures Opens(tree, path) ==> SeesDirectory(tree, path[..i], path[i])
      ensures Opens(tree, path[..i]) && SeesDirectory(tree, path[..i], path[i]) ==> Opens(tree, path[..i + 1])
    {
      assert forall j | 0 <= j <= i :: path[..i + 1][..j] == path[..j];
      assert forall j | 0 <= j < i :: path[..i][..j] == path[..j] && path[..i][j] == path[..i + 1][j];
    }

    /**
     What a mount that caches nothing answers, over a backend that refuses nothing it could do. A
     cached entry cannot be asked to move to another directory.
     */
    ghost predicate Serves(before: Tree, request: Request, reply: Reply, after: Tree) {
      if !Opens(before, request.dir) then reply == Refused && after == before
      else match request
        case LookUp(p, name) =>
          after == before && reply == if Sees(before, p, name) then Found(before[p + [name]]) else Refused
        case List(p) =>
          && after == before && reply.Listed?
          && forall name ::
              multiset(reply.names)[name] ==
              (if Sees(before, p, name) then 1 else 0) + (if SeesBeside(before, p, name) then 1 else 0)
        case MakeDir(p, name) =>
          if p + [name] !in before then reply == Done && after == before[p + [name] := Directory]
          else reply == Refused && after == before
        case Unlink(p, name) =>
          if p + [name] in before then reply == Done && after == Without(before, p + [name])
          else reply == Refused && after == before
        case Move(p, name, q, newName) =>
          if reply == NotAsked then p != q && after == before
          else if Opens(before, q) && CanMove(before, p + [name], q + [newName], backend.overwrites) then
            reply == Done && after == AfterMove(before, p + [name], q + [newName])
          else reply == Refused && after == before
    }

    ghost function Nodes(): set<Node>
      reads this
    {
      set p | p in cache :: cache[p].node
    }

    /** The cell says what the node's fields say. */
    ghost predicate Mirrored(p: Path)
      requires p in cache
      reads this, Nodes()
    {
      var cell := cache[p];
      && cell.node.fileSystem == this && cell.node.depth == |p|
      && cell.name == cell.node.name && cell.kind == cell.node.kind && cell.entries == cell.node.entries
      && cell.parent == if cell.node.parent == null then None else Some(cell.node.parent)
    }

    ghost predicate Valid()
      reads this, backend, Nodes()
    {
      && Sound(cache, backend.tree)
      && forall p {:trigger Mirrored(p)} | p in cache :: Mirrored(p)
    }

    /** A cached node's absolute path is the path of entry names that leads to it. */
    lemma {:induction false} AbsolutePathIsKey(p: Path)
      requires Valid() && p in cache
      ensures GoodPath(p) && cache[p].node.Rooted() && cache[p].node.AbsolutePath() == Render(p)
      decreases |p|
    {
      assert Mirrored(p) && Placed(cache, p);
      if p != [] {
        AbsolutePathIsKey(Up(p));
        assert Mirrored(Up(p));
        UpLast(p);
        RenderChild(Up(p), Last(p));
        assert forall name | name in p :: name in Up(p) || name == Last(p);
      }
    }

    /**
     What holds of every node reachable through Entries: its Name is its key, its Parent holds it
     under that key, and its absolute path names a backend object of the same kind.
     */
    lemma CachedNodesAreReal(p: Path)
      requires Valid() && p in cache
      ensures var node := cache[p].node;
        && node.Rooted() && node.AbsolutePath() == Render(p)
        && Components(node.AbsolutePath()) in backend.tree && backend.tree[Components(node.AbsolutePath())] == node.kind
        && (p != [] ==> node.name == Last(p) && node.parent != null && node.name in node.parent.entries
                        && node.parent.entries[node.name] == node)
    {
      AbsolutePathIsKey(p);
      ComponentsRender(p);
      assert Mirrored(p) && Placed(cache, p) && Backed(cache, backend.tree, p);
      if p != [] {
        UpLast(p);
        assert Mirrored(Up(p)) && Linked(cache, Up(p));
        assert EntryAt(cache, Up(p) + [Last(p)], cache[Up(p)].entries[Last(p)]);
      }
    }

    /** No node has changed, and the backend has lost nothing. */
    twostate lemma StillValid()
      requires old(Valid()) && cache == old(cache)
      requires forall p | p in cache :: unchanged(cache[p].node)
      requires forall x | x in old(backend.tree) :: x in backend.tree && backend.tree[x] == old(backend.tree)[x]
      ensures Valid()
    {
      forall p | p in cache
        ensures Backed(cache, backend.tree, p) && Mirrored(p)
      {
        assert Backed(cache, old(backend.tree), p) && old(Mirrored(p));
      }
    }

    /** The three writes of a rename within directory p, and the backend's move. */
    twostate lemma RenamedValid(new c: Cache<Node>, new tree: Tree, new p: Path, new a: string, new b: string)
      requires p in old(cache) && c == Dropped(old(cache), p, b) && CanRename(c, tree, p, a, b)
      requires c[p] == old(cache)[p].(entries := old(cache)[p].entries - {b})
      requires forall x {:trigger old(Mirrored(x))} | x in old(cache) :: old(Mirrored(x))
      requires cache == Renamed(c, p, a, b) && backend.tree == Relabelled(tree, p + [a], p + [b])
      requires c[p].node.entries == RenamedEntries(c[p].entries, a, b) && c[p].entries[a].name == b
      requires forall x | x in c && c[x].node != c[p].node :: c[x].node.entries == old(c[x].node.entries)
      requires forall x | x in c && c[x].node != c[p].entries[a] :: c[x].node.name == old(c[x].node.name)
      ensures Valid()
    {
      RenamedSound(c, tree, p, a, b);
      assert Linked(c, p) && EntryAt(c, p + [a], c[p].entries[a]);
      forall y | y in cache
        ensures Mirrored(y)
      {
        var x := Shift(y, p + [b], p + [a]);
        RenamedAt(c, p, a, b, y);
        RenamedFrom(y, p, a, b);
        assert old(Mirrored(x)) && old(Mirrored(p));
      }
    }

    /** The one write of a removal from directory p, and the backend's. */
    twostate lemma DroppedValid(new c: Cache<Node>, new tree: Tree, new p: Path, new name: string)
      requires c == old(cache) && Sound(c, tree) && p in c
      requires forall x {:trigger old(Mirrored(x))} | x in c :: old(Mirrored(x))
      requires cache == Dropped(c, p, name) && backend.tree == Without(tree, p + [name])
      requires c[p].node.entries == c[p].entries - {name}
      requires forall x | x in c && c[x].node != c[p].node :: c[x].node.entries == old(c[x].node.entries)
      requires forall x | x in c :: c[x].node.name == old(c[x].node.name)
      ensures Valid()
    {
      DroppedSound(c, tree, p, name);
      NotUnderOwnChild(p, name);
      forall x | x in cache
        ensures Mirrored(x)
      {
        assert old(Mirrored(x));
      }
    }

    lemma ChildPathIsKey(p: Path, name: string)
      requires Valid() && p in cache && GoodName(name)
      ensures cache[p].node.Rooted() && GoodPath(p + [name])
      ensures cache[p].node.AbsolutePathForChild(name) == Render(p + [name])
      ensures Components(Render(p + [name])) == p + [name]
    {
      AbsolutePathIsKey(p);
      RenderChild(p, name);
      assert forall n | n in p + [name] :: n in p || n == name;
      ComponentsRender(p + [name]);
    }
  }

  /** Which paths of a renamed cache hold the two nodes that were written. */
  lemma RenamedFrom(y: Path, p: Path, a: string, b: string)
    requires a != b && !Under(y, p + [a])
    ensures var x := Shift(y, p + [b], p + [a]);
      |x| == |y| && (x == p <==> y == p) && (x == p + [a] <==> y == p + [b])
  {}

  /** A rename brings no node in, and leaves the root where it is. */
  lemma RenamedNodes(c: Cache<Node>, p: Path, a: string, b: string)
    requires [] in c && p in c && a in c[p].entries && Movable(c, p + [a], p + [b])
    ensures var t := Renamed(c, p, a, b);
      && (forall y | y in t :: exists x :: x in c && c[x].node == t[y].node)
      && [] in t && t[[]].node == c[[]].node
  {
    var t := Renamed(c, p, a, b);
    RenamedAt(c, p, a, b, []);
    forall y | y in t
      ensures exists x :: x in c && c[x].node == t[y].node
    {
      RenamedAt(c, p, a, b, y);
      assert c[Shift(y, p + [b], p + [a])].node == t[y].node;
    }
  }

  /** strings.HasSuffix(name, ".zip@") */
  predicate HasZipSuffix(name: string) {
    |name| >= 5 && name[|name| - 5..] == ".zip@"
  }

  /** strings.HasSuffix(name, ".zip") */
  predicate IsZip(name: string) {
    |name| >= 4 && name[|name| - 4..] == ".zip"
  }

  /** The archive shown under such a name. */
  function Archive(name: string): string
    requires HasZipSuffix(name)
  {
    name[..|name| - 1]
  }

  lemma ArchiveGood(name: string)
    requires GoodName(name) && HasZipSuffix(name)
    ensures GoodName(Archive(name)) && !HasZipSuffix(Archive(name))
  {
    assert name[|name| - 5..][3] == 'p';
  }

  lemma ShownName(zip: string)
    requires IsZip(zip)
    ensures HasZipSuffix(zip + "@") && Archive(zip + "@") == zip
  {}

  lemma ArchiveName(name: string)
    requires HasZipSuffix(name)
    ensures IsZip(Archive(name)) && Archive(name) + "@" == name
  {
    assert name[|name| - 5..][..4] == ".zip" && name[|name| - 5..][4] == '@';
    assert Archive(name)[|Archive(name)| - 4..] == name[|name| - 5..][..4];
  }

  /** The node is cached at p. */
  ghost predicate At(node: Node, p: Path)
    reads node.fileSystem
  {
    p in node.fileSystem.cache && node.fileSystem.cache[p].node == node
  }

  /** A Dir or a File. */
  class Node {
    const fileSystem: FileSystem
    const kind: Kind
    const parent: Node?
    ghost const depth: nat
    var name: string                 // Attrs.Name
    var entries: map<string, Node>   // of a directory; nil counts as empty

    constructor (fileSystem: FileSystem, parent: Node, name: string, kind: Kind)
      ensures this.fileSystem == fileSystem && this.parent == parent && this.name == name && this.kind == kind
      ensures depth == parent.depth + 1 && entries == map[]
    {
      this.fileSystem, this.parent, this.name, this.kind := fileSystem, parent, name, kind;
      depth, entries := parent.depth + 1, map[];
    }

    constructor Root(fileSystem: FileSystem)
      ensures this.fileSystem == fileSystem && parent == null && name == "" && kind == Directory
      ensures depth == 0 && entries == map[]
    {
      this.fileSystem, parent, name, kind, depth, entries := fileSystem, null, "", Directory, 0, map[];
    }

    /** The chain of parents ends. */
    ghost predicate Rooted()
      decreases depth
    {
      parent != null ==> parent.depth < depth && parent.Rooted()
    }

    ghost function Ancestors(): set<Node>
      requires Rooted()
      decreases depth
    {
      {this} + if parent == null then {} else parent.Ancestors()
    }

    function AbsolutePath(): string
      requires Rooted()
      reads Ancestors()
      decreases depth
    {
      if parent == null then "/" else PathJoin(parent.AbsolutePath(), name)
    }

    function AbsolutePathForChild(name: string): string
      requires Rooted()
      reads Ancestors()
    {
      var path := AbsolutePath();
      (if path != "/" then path + "/" else path) + name
    }

    /** Lines 168-177: a new node for an object the backend has, entered in the place of any that was cached. */
    method NodeFromAttrs(name: string, kind: Kind, ghost p: Path) returns (node: Node)
      requires fileSystem.Valid() && At(this, p) && this.kind.Directory? && GoodName(name)
      requires p + [name] in fileSystem.backend.tree && fileSystem.backend.tree[p + [name]] == kind
      modifies this`entries, fileSystem`cache
      ensures fileSystem.Valid() && fresh(node) && fileSystem.Nodes() <= old(fileSystem.Nodes()) + {node}
      ensures node.fileSystem == fileSystem && node.kind == kind && At(node, p + [name]) && At(this, p)
      ensures entries == old(entries)[name := node]
      ensures fileSystem.cache == Entered(old(fileSystem.cache), p, name, node, kind)
      ensures p + [name] !in old(fileSystem.cache) ==>
                fileSystem.cache == Added(old(fileSystem.cache), p, name, node, kind) && CacheKept()
    {
      assert fileSystem.Mirrored(p);
      ghost var cache, tree := fileSystem.cache, fileSystem.backend.tree;
      node := new Node(fileSystem, this, name, kind);
      EnteredSound(cache, tree, p, name, node, kind);
      NotUnderOwnChild(p, name);
      AddedKeeps(cache, p, name, node, kind);
      entries := entries[name := node];
      fileSystem.cache := Entered(cache, p, name, node, kind);
      forall x | x in fileSystem.cache
        ensures fileSystem.Mirrored(x)
      {
        EnteredAt(cache, p, name, node, kind, x);
        assert x != p + [name] ==> old(fileSystem.Mirrored(x));
      }
    }

    /**
     Lines 95-128. With `shown`, the node is an archive, and the name shows its tree as a directory
     that is not cached.
     */
    method Lookup(name: string, ghost p: Path) returns (node: Node?, shown: bool, st: Status)
      requires fileSystem.Valid() && At(this, p) && kind.Directory? && GoodName(name)
      modifies this`entries, fileSystem`cache
      ensures fileSystem.Valid()
      ensures (st.Ok? <==> node != null) && (shown ==> node != null && name !in old(entries) && Shows(name))
      ensures node != null ==> node.fileSystem == fileSystem && At(node, p + [if shown then Archive(name) else name])
      ensures node != null ==> Allowed(fileSystem.allowedPrefixes, Render(p + [name]))
      ensures shown ==> node.kind.Regular?
      ensures fresh(fileSystem.Nodes() - old(fileSystem.Nodes())) && CacheKept() && RootKept()
      ensures node == null && !Shows(name) ==> fileSystem.cache == old(fileSystem.cache)
      ensures fileSystem.backend.healthy && AllowedBoth(p, name) ==>
                (node != null <==> name in old(entries) || CanShow(p, name))
      ensures name in old(entries) && node != null ==> node == old(entries)[name] && entries == old(entries)
      ensures name !in old(entries) && node != null && !shown ==> fresh(node) && entries == old(entries)[name := node]
      ensures !Allowed(fileSystem.allowedPrefixes, Render(p + [name])) ==>
                st == Failed(NotExist) && entries == old(entries)
      ensures st.Failed? ==> st.error == NotExist || st.error == fileSystem.backend.refusal
      ensures st.Failed? && Allowed(fileSystem.allowedPrefixes, Render(p + [name])) && !Shows(name) ==>
                st.error == StatError(p, name)
      ensures node != null && !shown ==>
                p + [name] in fileSystem.backend.tree && node.kind == fileSystem.backend.tree[p + [name]]
      ensures fileSystem.backend.healthy && !Shows(name) ==> (node != null <==> Visible(p, name))
    {
      EntriesAreCached(name, p);
      var allowed := Admits(name, p);
      shown := false;
      if allowed && name !in entries && fileSystem.expandZips && HasZipSuffix(name) {
        node, st := LookupArchive(name, p);
        shown := node != null;
      } else {
        node, st := LookupNode(name, p);
      }
    }

    /** Lines 104-119: the archive under the name without "@". */
    method LookupArchive(name: string, ghost p: Path) returns (node: Node?, st: Status)
      requires fileSystem.Valid() && At(this, p) && kind.Directory? && GoodName(name) && Shows(name)
      modifies this`entries, fileSystem`cache
      ensures fileSystem.Valid() && (st.Ok? <==> node != null)
      ensures node != null ==>
                node.fileSystem == fileSystem && At(node, p + [Archive(name)]) && node.kind.Regular?
      ensures fresh(fileSystem.Nodes() - old(fileSystem.Nodes())) && CacheKept()
      ensures fileSystem.backend.healthy && Allowed(fileSystem.allowedPrefixes, Render(p + [Archive(name)])) ==>
                (node != null <==> CanShow(p, name))
      ensures st.Failed? ==> st.error == NotExist || st.error == fileSystem.backend.refusal
    {
      ArchiveGood(name);
      node, st := LookupNode(Archive(name), p);
      if node != null && node.kind.Directory? {
        node, st := null, Failed(NotExist);
      }
    }

    /** Looks up a directory. The tree of an archive is not entered. */
    method Descend(name: string, ghost p: Path) returns (node: Node?)
      requires fileSystem.Valid() && At(this, p) && kind.Directory? && GoodName(name)
      modifies this`entries, fileSystem`cache
      ensures fileSystem.Valid() && CacheKept() && fresh(fileSystem.Nodes() - old(fileSystem.Nodes()))
      ensures node != null ==> node.fileSystem == fileSystem && At(node, p + [name]) && node.kind.Directory?
      ensures fileSystem.backend.healthy && !Shows(name) ==>
                (node != null <==> fileSystem.SeesDirectory(fileSystem.backend.tree, p, name))
    {
      var shown, st;
      node, shown, st := Lookup(name, p);
      if node != null && (shown || node.kind.Regular?) {
        node := null;
      }
    }

    /** The name is one under which an archive's tree is shown. */
    predicate Shows(name: string) {
      fileSystem.Shows(name)
    }

    /** What is not cached can be found: an archive of the name without "@", or the object of the name. */
    ghost predicate CanShow(p: Path, name: string)
      reads fileSystem.backend
    {
      var tree := fileSystem.backend.tree;
      if Shows(name) then p + [Archive(name)] in tree && tree[p + [Archive(name)]].Regular?
      else p + [name] in tree
    }

    ghost predicate AllowedBoth(p: Path, name: string) {
      && Allowed(fileSystem.allowedPrefixes, Render(p + [name]))
      && (HasZipSuffix(name) ==> Allowed(fileSystem.allowedPrefixes, Render(p + [Archive(name)])))
    }

    /** Nodes that were cached are cached where they were. */
    twostate predicate CacheKept()
      reads fileSystem
    {
      forall x | x in old(fileSystem.cache) ::
        x in fileSystem.cache && fileSystem.cache[x].node == old(fileSystem.cache[x].node)
    }

    /** Lines 96-102 and 121-127: a name that shows no archive. */
    method LookupNode(name: string, ghost p: Path) returns (node: Node?, st: Status)
      requires fileSystem.Valid() && At(this, p) && kind.Directory? && GoodName(name)
      modifies this`entries, fileSystem`cache
      ensures fileSystem.Valid()
      ensures st.Ok? <==> node != null
      ensures node != null ==> node.fileSystem == fileSystem && At(node, p + [name])
      ensures node != null ==> Allowed(fileSystem.allowedPrefixes, Render(p + [name]))
      ensures node != null ==> p + [name] in fileSystem.backend.tree && fileSystem.backend.tree[p + [name]] == node.kind
      ensures fresh(fileSystem.Nodes() - old(fileSystem.Nodes())) && CacheKept()
      ensures fileSystem.backend.healthy && Allowed(fileSystem.allowedPrefixes, Render(p + [name])) ==>
                (node != null <==> p + [name] in fileSystem.backend.tree)
      ensures name in old(entries) && Allowed(fileSystem.allowedPrefixes, Render(p + [name])) ==> node != null
      ensures node == null ==> fileSystem.cache == old(fileSystem.cache) && entries == old(entries)
      // a cached node is given out as it is, and what is not cached is asked for once
      ensures name in old(entries) && node != null ==> node == old(entries)[name] && entries == old(entries)
      ensures name !in old(entries) && node != null ==> fresh(node) && entries == old(entries)[name := node]
      ensures !Allowed(fileSystem.allowedPrefixes, Render(p + [name])) ==> st == Failed(NotExist)
      ensures st.Failed? && Allowed(fileSystem.allowedPrefixes, Render(p + [name])) ==> st.error == StatError(p, name)
    {
      var allowed := Admits(name, p);
      EntriesAreCached(name, p);
      if !allowed {
        return null, Failed(NotExist);
      }
      if name in entries {
        return entries[name], Ok;
      }
      var found;
      found, st := LookupAttrs(name, p);
      node := null;
      if st.Ok? {
        node := NodeFromAttrs(name, found, p);
      }
    }

    /** Whether the name's absolute path is one that is shown. */
    method Admits(name: string, ghost p: Path) returns (allowed: bool)
      requires fileSystem.Valid() && At(this, p) && GoodName(name)
      ensures fileSystem.Valid() && (allowed <==> Allowed(fileSystem.allowedPrefixes, Render(p + [name])))
    {
      fileSystem.ChildPathIsKey(p, name);
      allowed := IsPathAllowed(fileSystem.allowedPrefixes, AbsolutePathForChild(name));
      fileSystem.StillValid();
    }

    /** What a failed Stat of an entry says. */
    ghost function StatError(p: Path, name: string): Error
      reads fileSystem.backend
    {
      if p + [name] in fileSystem.backend.tree then fileSystem.backend.refusal else NotExist
    }

    /** Stat of an entry, cached or not. */
    method LookupAttrs(name: string, ghost p: Path) returns (found: Kind, st: Status)
      requires fileSystem.Valid() && At(this, p) && GoodName(name)
      ensures fileSystem.Valid()
      ensures st.Ok? ==> p + [name] in fileSystem.backend.tree && fileSystem.backend.tree[p + [name]] == found
      ensures fileSystem.backend.healthy && p + [name] in fileSystem.backend.tree ==> st.Ok?
      ensures st.Failed? ==> st.error == StatError(p, name)
    {
      fileSystem.ChildPathIsKey(p, name);
      found, st := fileSystem.backend.Stat(AbsolutePathForChild(name));
      fileSystem.StillValid();
    }

    /** An entry's node is cached one name further, for an object of its kind. */
    lemma EntriesAreCached(name: string, p: Path)
      requires fileSystem.Valid() && At(this, p)
      ensures name in entries <==> p + [name] in fileSystem.cache
      ensures name in entries ==>
                && entries[name].fileSystem == fileSystem && At(entries[name], p + [name])
                && p + [name] in fileSystem.backend.tree && fileSystem.backend.tree[p + [name]] == entries[name].kind
    {
      assert fileSystem.Mirrored(p) && Linked(fileSystem.cache, p);
      if name in entries {
        assert EntryAt(fileSystem.cache, p + [name], entries[name]);
        assert Backed(fileSystem.cache, fileSystem.backend.tree, p + [name]) && fileSystem.Mirrored(p + [name]);
      }
    }

    /**
     Lists the allowed names, and beside each archive the name that shows its tree. Enters a new node
     for each allowed name: nodes that were cached are replaced, and what was cached below is forgotten.
     */
    method ReadDirAll(ghost p: Path) returns (names: seq<string>, st: Status)
      requires fileSystem.Valid() && At(this, p) && kind.Directory?
      modifies this`entries, fileSystem`cache
      ensures fileSystem.Valid() && At(this, p) && RootKept()
      ensures fresh(fileSystem.Nodes() - old(fileSystem.Nodes()))
      ensures st.Ok? ==> forall name ::
                multiset(names)[name] ==
                (if Visible(p, name) then 1 else 0) + (if ShownBeside(p, name) then 1 else 0)
      ensures st.Ok? ==> forall name | Visible(p, name) :: name in entries && fresh(entries[name])
      ensures st.Ok? ==> OthersKept(p)
      ensures st.Failed? ==> fileSystem.cache == old(fileSystem.cache) && entries == old(entries)
      ensures st.Failed? ==> st.error == fileSystem.backend.refusal
      ensures fileSystem.backend.healthy ==> st.Ok?
    {
      var all;
      all, st := ReadDir(p);
      names := [];
      if st.Ok? {
        var entered := EnterAll(all, p);
        names := ListingOf(entered);
        forall name
          ensures multiset(names)[name] ==
                  (if Visible(p, name) then 1 else 0) + (if ShownBeside(p, name) then 1 else 0)
          ensures Visible(p, name) ==> Renewed(name)
        {
          ListingCounts(entered, name);
          ListedIsRight(entered, p, name);
          RightIsListed(all, entered, p, name);
        }
      }
    }

    /** The names that stand for an entry in a listing. */
    function NamesOf(a: Attrs): seq<string> {
      [a.name] + if fileSystem.expandZips && a.kind.Regular? && IsZip(a.name) then [a.name + "@"] else []
    }

    function ListingOf(entered: seq<Attrs>): seq<string> {
      if entered == [] then [] else ListingOf(entered[..|entered| - 1]) + NamesOf(entered[|entered| - 1])
    }

    /** The entry is listed with its tree beside it, under that name. */
    predicate Beside(a: Attrs, name: string) {
      fileSystem.expandZips && a.kind.Regular? && IsZip(a.name) && name == a.name + "@"
    }

    lemma NamesOfCounts(a: Attrs, name: string)
      ensures multiset(NamesOf(a))[name] == (if a.name == name then 1 else 0) + (if Beside(a, name) then 1 else 0)
    {
      if Beside(a, a.name + "@") {
        assert NamesOf(a) == [a.name, a.name + "@"];
      } else {
        assert NamesOf(a) == [a.name];
      }
    }

    lemma {:induction false} ListingAdds(entered: seq<Attrs>, name: string)
      ensures multiset(ListingOf(entered))[name] ==
              CountIf(entered, (a: Attrs) => a.name == name) + CountIf(entered, (a: Attrs) => Beside(a, name))
    {
      if entered != [] {
        ListingAdds(entered[..|entered| - 1], name);
        NamesOfCounts(entered[|entered| - 1], name);
      }
    }

    /** A name is listed once if it is an entry's own, and once if it shows an archive's tree. */
    lemma ListingCounts(entered: seq<Attrs>, name: string)
      requires Distinct(entered)
      ensures multiset(ListingOf(entered))[name] ==
              (if exists a :: a in entered && a.name == name then 1 else 0) +
              (if exists a :: a in entered && Beside(a, name) then 1 else 0)
    {
      ListingAdds(entered, name);
      AtMostOne(entered, (a: Attrs) => a.name == name);
      forall i, j | 0 <= i < j < |entered|
        ensures !(Beside(entered[i], name) && Beside(entered[j], name))
      {
        SameShown(entered[i].name, entered[j].name);
      }
      AtMostOne(entered, (a: Attrs) => Beside(a, name));
    }

    /** Listed are only names that are visible or show the tree of a visible archive. */
    lemma ListedIsRight(entered: seq<Attrs>, p: Path, name: string)
      requires forall a | a in entered :: fileSystem.backend.Has(p, a) && Visible(p, a.name)
      ensures (exists a :: a in entered && a.name == name) ==> Visible(p, name)
      ensures (exists a :: a in entered && Beside(a, name)) ==> ShownBeside(p, name)
    {
      if a :| a in entered && Beside(a, name) {
        ShownName(a.name);
      }
    }

    /** And all of them. */
    lemma RightIsListed(all: seq<Attrs>, entered: seq<Attrs>, p: Path, name: string)
      requires forall a {:trigger fileSystem.backend.Has(p, a)} | fileSystem.backend.Has(p, a) :: a in all
      requires forall a | a in all && Visible(p, a.name) :: a in entered
      ensures Visible(p, name) ==> exists a :: a in entered && a.name == name
      ensures ShownBeside(p, name) ==> exists a :: a in entered && Beside(a, name)
    {
      if Visible(p, name) {
        var a := Attrs(name, fileSystem.backend.tree[p + [name]]);
        assert fileSystem.backend.Has(p, a) && a in entered;
      }
      if ShownBeside(p, name) {
        var a := Attrs(Archive(name), Regular);
        ArchiveName(name);
        assert fileSystem.backend.Has(p, a) && Beside(a, name);
      }
    }

    /** What the backend has in this directory. */
    method ReadDir(ghost p: Path) returns (all: seq<Attrs>, st: Status)
      requires fileSystem.Valid() && At(this, p) && kind.Directory?
      ensures fileSystem.Valid() && (fileSystem.backend.healthy ==> st.Ok?)
      ensures Distinct(all) && (st.Ok? ==> forall a :: a in all <==> fileSystem.backend.Has(p, a))
      ensures st.Failed? ==> st.error == fileSystem.backend.refusal
    {
      fileSystem.AbsolutePathIsKey(p);
      ComponentsRender(p);
      assert fileSystem.Mirrored(p) && Backed(fileSystem.cache, fileSystem.backend.tree, p);
      all, st := fileSystem.backend.ReadDir(AbsolutePath());
      fileSystem.StillValid();
    }

    /** The loop over the listing: what is allowed is entered. */
    method EnterAll(all: seq<Attrs>, ghost p: Path) returns (entered: seq<Attrs>)
      requires fileSystem.Valid() && At(this, p) && kind.Directory?
      requires Distinct(all) && forall a | a in all :: fileSystem.backend.Has(p, a)
      modifies this`entries, fileSystem`cache
      ensures fileSystem.Valid() && At(this, p) && RootKept()
      ensures fresh(fileSystem.Nodes() - old(fileSystem.Nodes()))
      ensures forall a | a in entered :: a in all && Visible(p, a.name) && Renewed(a.name)
      ensures Distinct(entered) && forall a | a in all && Visible(p, a.name) :: a in entered
      ensures OthersKept(p)
    {
      entered := [];
      ghost var made: set<Node> := {};
      for i := 0 to |all|
        invariant fileSystem.Valid() && At(this, p) && RootKept() && fresh(made)
        invariant fresh(fileSystem.Nodes() - old(fileSystem.Nodes()))
        invariant AllMade(p, entered, made) && Picked(entered, all, i) && OthersKept(p)
        invariant forall k | 0 <= k < i && Visible(p, all[k].name) :: all[k] in entered
      {
        PickedNext(entered, all, i);
        entered, made := EnterNext(all[i], p, entered, made);
      }
      forall a | a in entered
        ensures Visible(p, a.name) && Renewed(a.name)
      {}
    }

    /** What has been entered is visible, and its nodes are among those made. */
    ghost predicate AllMade(p: Path, entered: seq<Attrs>, made: set<Node>)
      reads this, fileSystem.backend
    {
      forall a | a in entered :: Visible(p, a.name) && a.name in entries && entries[a.name] in made
    }

    method EnterNext(a: Attrs, ghost p: Path, entered: seq<Attrs>, ghost made: set<Node>)
        returns (more: seq<Attrs>, ghost made': set<Node>)
      requires fileSystem.Valid() && At(this, p) && kind.Directory? && fileSystem.backend.Has(p, a)
      requires AllMade(p, entered, made)
      modifies this`entries, fileSystem`cache
      ensures fileSystem.Valid() && At(this, p) && RootKept()
      ensures fresh(fileSystem.Nodes() - old(fileSystem.Nodes()))
      ensures more == (if Visible(p, a.name) then entered + [a] else entered) && OthersKept(p)
      ensures AllMade(p, more, made') && made <= made' && fresh(made' - made)
    {
      more, made' := entered, made;
      var allowed := EnterIfAllowed(a, p);
      if allowed {
        more, made' := entered + [a], made + {entries[a.name]};
      }
    }

    /** What is not visible is cached as it was. */
    twostate predicate OthersKept(new p: Path)
      reads this, fileSystem.backend
    {
      forall name | !Visible(p, name) ::
        (name in entries <==> name in old(entries)) && (name in entries ==> entries[name] == old(entries)[name])
    }

    /** The name has a new node. */
    twostate predicate Renewed(new name: string)
      reads this
    {
      name in entries && fresh(entries[name])
    }

    /** One turn of that loop. */
    method EnterIfAllowed(a: Attrs, ghost p: Path) returns (allowed: bool)
      requires fileSystem.Valid() && At(this, p) && kind.Directory? && fileSystem.backend.Has(p, a)
      modifies this`entries, fileSystem`cache
      ensures fileSystem.Valid() && At(this, p) && RootKept()
      ensures fresh(fileSystem.Nodes() - old(fileSystem.Nodes()))
      ensures allowed <==> Allowed(fileSystem.allowedPrefixes, Render(p + [a.name]))
      ensures allowed ==>
                a.name in entries && fresh(entries[a.name]) && entries == old(entries)[a.name := entries[a.name]]
      ensures !allowed ==> entries == old(entries)
    {
      allowed := Admits(a.name, p);
      if allowed {
        var node := NodeFromAttrs(a.name, a.kind, p);
      }
    }

    /** The backend has an entry of that name, and it is allowed. */
    ghost predicate Visible(p: Path, name: string)
      reads fileSystem.backend
    {
      fileSystem.Sees(fileSystem.backend.tree, p, name)
    }

    /** The name shows the tree of an archive that is visible. */
    ghost predicate ShownBeside(p: Path, name: string)
      reads fileSystem.backend
    {
      fileSystem.SeesBeside(fileSystem.backend.tree, p, name)
    }

    twostate predicate RootKept()
      reads fileSystem
    {
      && [] in fileSystem.cache && [] in old(fileSystem.cache)
      && fileSystem.cache[[]].node == old(fileSystem.cache[[]].node)
    }

    method Mkdir(name: string, ghost p: Path) returns (node: Node?, st: Status)
      requires fileSystem.Valid() && At(this, p) && kind.Directory? && GoodName(name)
      modifies this`entries, fileSystem`cache, fileSystem.backend
      ensures fileSystem.Valid() && RootKept()
      ensures st.Ok? <==> node != null
      ensures fresh(fileSystem.Nodes() - old(fileSystem.Nodes()))
      ensures node != null ==> At(node, p + [name]) && node.kind.Directory?
      ensures node != null ==> fileSystem.cache == Added(old(fileSystem.cache), p, name, node, Directory)
      ensures node != null ==> fileSystem.backend.tree == old(fileSystem.backend.tree)[p + [name] := Directory]
      ensures node == null ==>
                fileSystem.cache == old(fileSystem.cache) && fileSystem.backend.tree == old(fileSystem.backend.tree)
      ensures fileSystem.backend.healthy ==> (node != null <==> p + [name] !in old(fileSystem.backend.tree))
      ensures node != null ==> entries == old(entries)[name := node]
      ensures st.Failed? ==> entries == old(entries) && st.error == fileSystem.backend.refusal
    {
      st := MakeDirectory(name, p);
      node := null;
      if st.Ok? {
        node := NodeFromAttrs(name, Directory, p);
      }
    }

    /** The backend's part. What is cached exists, so the name of a new directory is not cached. */
    method MakeDirectory(name: string, ghost p: Path) returns (st: Status)
      requires fileSystem.Valid() && At(this, p) && kind.Directory? && GoodName(name)
      modifies fileSystem.backend
      ensures fileSystem.Valid() && (st.Ok? ==> p + [name] !in fileSystem.cache)
      ensures fileSystem.backend.tree == if st.Ok? then old(fileSystem.backend.tree)[p + [name] := Directory]
                                         else old(fileSystem.backend.tree)
      ensures st.Ok? ==> p + [name] !in old(fileSystem.backend.tree)
      ensures fileSystem.backend.healthy ==> (st.Ok? <==> p + [name] !in old(fileSystem.backend.tree))
      ensures st.Failed? ==> st.error == fileSystem.backend.refusal
    {
      fileSystem.ChildPathIsKey(p, name);
      ChildOf(p, name);
      ghost var cache, tree := fileSystem.cache, fileSystem.backend.tree;
      assert fileSystem.Mirrored(p) && Backed(cache, tree, p);
      assert p + [name] in cache ==> Backed(cache, tree, p + [name]);
      st := fileSystem.backend.Mkdir(AbsolutePathForChild(name));
      fileSystem.StillValid();
    }

    method Remove(name: string, ghost p: Path) returns (st: Status)
      requires fileSystem.Valid() && At(this, p) && kind.Directory? && GoodName(name)
      modifies this`entries, fileSystem`cache, fileSystem.backend
      ensures fileSystem.Valid() && RootKept() && fileSystem.Nodes() <= old(fileSystem.Nodes())
      ensures st.Ok? ==> fileSystem.backend.tree == Without(old(fileSystem.backend.tree), p + [name])
      ensures st.Ok? ==> fileSystem.cache == Dropped(old(fileSystem.cache), p, name)
      ensures st.Failed? ==>
                fileSystem.cache == old(fileSystem.cache) && fileSystem.backend.tree == old(fileSystem.backend.tree)
      ensures fileSystem.backend.healthy ==> (st.Ok? <==> p + [name] in old(fileSystem.backend.tree))
      ensures entries == if st.Ok? then old(entries) - {name} else old(entries)
      ensures st.Failed? ==> st.error == fileSystem.backend.refusal
    {
      fileSystem.ChildPathIsKey(p, name);
      assert fileSystem.Mirrored(p);
      ghost var cache, tree := fileSystem.cache, fileSystem.backend.tree;
      st := fileSystem.backend.Remove(AbsolutePathForChild(name));
      if st.Failed? {
        fileSystem.StillValid();
      } else {
        entries := entries - {name};
        fileSystem.cache := Dropped(cache, p, name);
        NotUnderOwnChild(p, name);
        fileSystem.DroppedValid(cache, tree, p, name);
      }
    }

    /**
     Rename keeps everything in step as long as the entry stays in its directory, however much is
     cached below it, or is not cached at all. A cached entry moved to another directory keeps its
     old Parent.
     */
    method Rename(oldName: string, newName: string, newDir: Node, ghost p: Path, ghost q: Path) returns (st: Status)
      requires fileSystem.Valid() && At(this, p) && kind.Directory? && GoodName(oldName) && GoodName(newName)
      requires newDir.fileSystem == fileSystem && At(newDir, q) && newDir.kind.Directory?
      modifies fileSystem.Nodes(), fileSystem`cache, fileSystem.backend
      ensures st.Ok? ==>
                CanMove(old(fileSystem.backend.tree), p + [oldName], q + [newName], fileSystem.backend.overwrites)
      ensures st.Ok? ==>
                fileSystem.backend.tree == AfterMove(old(fileSystem.backend.tree), p + [oldName], q + [newName])
      ensures st.Failed? ==> fileSystem.Valid() && fileSystem.cache == old(fileSystem.cache)
      ensures st.Failed? ==> fileSystem.backend.tree == old(fileSystem.backend.tree)
      ensures fileSystem.backend.healthy ==>
                (st.Ok? <==>
                 CanMove(old(fileSystem.backend.tree), p + [oldName], q + [newName], fileSystem.backend.overwrites))
      ensures newDir == this || oldName !in old(entries) ==> fileSystem.Valid()
      ensures fileSystem.Nodes() <= old(fileSystem.Nodes())
      ensures RootKept()
      ensures st.Ok? && newDir == this && oldName in old(entries) ==>
                RenamedOver(old(fileSystem.cache), fileSystem.cache, p, oldName, newName)
      // the node itself goes to its new place under its new name; its Parent is not written
      ensures st.Ok? && oldName in old(entries) ==>
                var node := old(entries)[oldName];
                && node.name == newName && node.parent == this
                && (newDir != this ==>
                      entries == old(entries) - {oldName} && newDir.entries == old(newDir.entries)[newName := node])
                && (newDir == this ==> entries == (old(entries) - {oldName})[newName := node])
      ensures st.Failed? || oldName !in old(entries) ==>
                entries == old(entries) && newDir.entries == old(newDir.entries)
      ensures st.Failed? ==> st.error == fileSystem.backend.refusal
    {
      fileSystem.ChildPathIsKey(p, oldName);
      fileSystem.ChildPathIsKey(q, newName);
      assert newDir == this ==> p == q;
      assert fileSystem.Mirrored(p) && fileSystem.Mirrored(q) && Linked(fileSystem.cache, p);
      ghost var cache, tree, from, to := fileSystem.cache, fileSystem.backend.tree, p + [oldName], q + [newName];
      st := fileSystem.backend.Rename(AbsolutePathForChild(oldName), newDir.AbsolutePathForChild(newName));
      if st.Failed? {
        fileSystem.StillValid();
      } else if oldName !in entries {
        UncachedRenameSound(cache, tree, from, to, fileSystem.backend.overwrites);
        forall x | x in cache
          ensures fileSystem.Mirrored(x)
        {
          assert old(fileSystem.Mirrored(x));
        }
      } else {
        forall x | x in cache
          ensures fileSystem.Mirrored(x)
        {
          assert old(fileSystem.Mirrored(x));
        }
        RenameCached(oldName, newName, newDir, p, q, tree);
      }
    }

    /** The backend has renamed an entry that is cached. */
    method RenameCached(oldName: string, newName: string, newDir: Node, ghost p: Path, ghost q: Path, ghost tree: Tree)
      requires Sound(fileSystem.cache, tree) && GoodName(newName)
      requires forall x {:trigger fileSystem.Mirrored(x)} | x in fileSystem.cache :: fileSystem.Mirrored(x)
      requires At(this, p) && oldName in entries && newDir.fileSystem == fileSystem && At(newDir, q)
      requires !Under(p + [oldName], q + [newName]) && !Under(q + [newName], p + [oldName])
      requires newDir == this ==> p == q && fileSystem.backend.tree == AfterMove(tree, p + [oldName], p + [newName])
      modifies fileSystem.Nodes(), fileSystem`cache
      ensures newDir == this ==>
                fileSystem.Valid() && RenamedOver(old(fileSystem.cache), fileSystem.cache, p, oldName, newName)
      ensures var node := old(entries)[oldName];
        && node.name == newName && node.parent == this
        && (newDir != this ==>
              entries == old(entries) - {oldName} && newDir.entries == old(newDir.entries)[newName := node])
        && (newDir == this ==> entries == (old(entries) - {oldName})[newName := node])
      ensures fileSystem.Nodes() <= old(fileSystem.Nodes())
      ensures [] in fileSystem.cache && fileSystem.cache[[]].node == old(fileSystem.cache[[]].node)
    {
      ghost var cache, from := fileSystem.cache, p + [oldName];
      assert fileSystem.Mirrored(p) && Linked(cache, p);
      assert EntryAt(cache, from, entries[oldName]) && fileSystem.Mirrored(from);
      assert Placed(cache, from) && Up(from) == p;
      if newDir == this {
        RenameHere(oldName, newName, p, tree);
      } else {
        MoveEntry(oldName, newName, newDir, entries[oldName]);
      }
    }

    /** The same within this directory. */
    method RenameHere(oldName: string, newName: string, ghost p: Path, ghost tree: Tree)
      requires Sound(fileSystem.cache, tree) && GoodName(newName)
      requires forall x {:trigger fileSystem.Mirrored(x)} | x in fileSystem.cache :: fileSystem.Mirrored(x)
      requires At(this, p) && oldName in entries && entries[oldName] in fileSystem.Nodes()
      requires entries[oldName].parent == this
      requires !Under(p + [oldName], p + [newName]) && !Under(p + [newName], p + [oldName])
      requires fileSystem.backend.tree == AfterMove(tree, p + [oldName], p + [newName])
      modifies fileSystem.Nodes(), fileSystem`cache
      ensures fileSystem.Valid() && RenamedOver(old(fileSystem.cache), fileSystem.cache, p, oldName, newName)
      ensures fileSystem.Nodes() <= old(fileSystem.Nodes()) && RootKept()
      ensures old(entries)[oldName].name == newName
      ensures entries == (old(entries) - {oldName})[newName := old(entries)[oldName]]
    {
      ghost var cache, rest := fileSystem.cache, Dropped(fileSystem.cache, p, newName);
      assert fileSystem.Mirrored(p);
      RenamableOverTarget(cache, tree, p, oldName, newName);
      MoveEntry(oldName, newName, this, entries[oldName]);
      fileSystem.cache := Renamed(rest, p, oldName, newName);
      fileSystem.RenamedValid(rest, Without(tree, p + [newName]), p, oldName, newName);
      RenamedNodes(rest, p, oldName, newName);
    }

    /** Lines 238-246: three fields are written, whatever hangs below the node. */
    method MoveEntry(oldName: string, newName: string, newDir: Node, node: Node)
      requires oldName in entries && entries[oldName] == node
      modifies this`entries, newDir`entries, node`name
      ensures
        && node.name == newName
        && (newDir == this ==> entries == RenamedEntries(old(entries), oldName, newName))
        && (newDir != this ==>
              entries == old(entries) - {oldName} && newDir.entries == old(newDir.entries)[newName := node])
    {
      node.name := newName;
      entries := entries - {oldName};
      newDir.entries := newDir.entries[newName := node];
    }
  }

  /** What the kernel asks for: an operation on an entry of the directory it finds at a path. */
  datatype Request =
    | LookUp(dir: Path, name: string)
    | List(dir: Path)
    | MakeDir(dir: Path, name: string)
    | Unlink(dir: Path, name: string)
    | Move(dir: Path, name: string, newDir: Path, newName: string)
  {
    predicate Good() {
      && GoodPath(dir)
      && (!List? ==> GoodName(name))
      && (Move? ==> GoodPath(newDir) && GoodName(newName))
    }

    /** It looks up no name that shows an archive's tree. */
    predicate Plain(fs: FileSystem) {
      && NoneShows(fs, dir)
      && (LookUp? ==> !fs.Shows(name))
      && (Move? ==> NoneShows(fs, newDir))
    }
  }

  predicate NoneShows(fs: FileSystem, path: Path) {
    forall name | name in path :: !fs.Shows(name)
  }

  datatype Reply = Found(kind: Kind) | Listed(names: seq<string>) | Done | Refused | NotAsked

  /** The next of these lookups. */
  method WalkOn(root: Node, node: Node, path: Path, i: nat) returns (next: Node?)
    requires root.fileSystem.Valid() && At(root, []) && GoodPath(path) && i < |path|
    requires node.fileSystem == root.fileSystem && At(node, path[..i]) && node.kind.Directory?
    modifies node`entries, root.fileSystem`cache
    ensures root.fileSystem.Valid() && fresh(root.fileSystem.Nodes() - old(root.fileSystem.Nodes())) && root.CacheKept()
    ensures next != null ==> next.fileSystem == root.fileSystem && At(next, path[..i + 1]) && next.kind.Directory?
    ensures root.fileSystem.backend.healthy && NoneShows(root.fileSystem, path) ==>
              (next != null <==> root.fileSystem.SeesDirectory(root.fileSystem.backend.tree, path[..i], path[i]))
  {
    assert path[i] in path && path[..i] + [path[i]] == path[..i + 1];
    next := node.Descend(path[i], path[..i]);
  }

  /** Lookups from the root along a path, to a directory. The trees of archives are not entered. */
  method WalkTo(root: Node, path: Path) returns (node: Node?)
    requires root.fileSystem.Valid() && At(root, []) && GoodPath(path)
    modifies root.fileSystem`cache, root.fileSystem.Nodes()
    ensures root.fileSystem.Valid() && fresh(root.fileSystem.Nodes() - old(root.fileSystem.Nodes())) && root.CacheKept()
    ensures node != null ==> node.fileSystem == root.fileSystem && At(node, path) && node.kind.Directory?
    ensures root.fileSystem.backend.healthy && NoneShows(root.fileSystem, path) ==>
              (node != null <==> root.fileSystem.Opens(root.fileSystem.backend.tree, path))
  {
    var fs := root.fileSystem;
    node := root;
    assert fs.Mirrored([]) && Placed(fs.cache, []);
    for i := 0 to |path|
      invariant fs.Valid() && fresh(fs.Nodes() - old(fs.Nodes())) && root.CacheKept()
      invariant node != null && node.fileSystem == fs && At(node, path[..i]) && node.kind.Directory?
      invariant fs.backend.healthy && NoneShows(fs, path) ==> fs.Opens(fs.backend.tree, path[..i])
    {
      fs.OpensStep(fs.backend.tree, path, i);
      node := WalkOn(root, node, path, i);
      if node == null {
        return;
      }
    }
    assert path[..|path|] == path;
  }

  /** One request. Over a healthy backend the cache does not show in what is answered. */
  method Perform(root: Node, request: Request) returns (reply: Reply)
    requires root.fileSystem.Valid() && At(root, []) && request.Good()
    modifies root.fileSystem`cache, root.fileSystem.Nodes(), root.fileSystem.backend
    ensures root.fileSystem.Valid() && At(root, []) && fresh(root.fileSystem.Nodes() - old(root.fileSystem.Nodes()))
    ensures root.fileSystem.backend.healthy && request.Plain(root.fileSystem) ==>
              root.fileSystem.Serves(old(root.fileSystem.backend.tree), request, reply, root.fileSystem.backend.tree)
  {
    var dir := WalkTo(root, request.dir);
    reply := Refused;
    if dir != null {
      reply := PerformIn(root, dir, request);
    }
  }

  method PerformIn(root: Node, dir: Node, request: Request) returns (reply: Reply)
    requires root.fileSystem.Valid() && At(root, []) && request.Good()
    requires dir.fileSystem == root.fileSystem && At(dir, request.dir) && dir.kind.Directory?
    modifies root.fileSystem`cache, root.fileSystem.Nodes(), root.fileSystem.backend
    ensures root.fileSystem.Valid() && At(root, []) && fresh(root.fileSystem.Nodes() - old(root.fileSystem.Nodes()))
    ensures root.fileSystem.backend.healthy && request.Plain(root.fileSystem)
            && root.fileSystem.Opens(old(root.fileSystem.backend.tree), request.dir) ==>
              root.fileSystem.Serves(old(root.fileSystem.backend.tree), request, reply, root.fileSystem.backend.tree)
  {
    reply := Refused;
    match request {
      case LookUp(p, name) =>
        var node, shown, st := dir.Lookup(name, p);
        if node != null {
          reply := Found(node.kind);
        }
      case List(p) =>
        var names, st := dir.ReadDirAll(p);
        if st.Ok? {
          reply := Listed(names);
        }
      case MakeDir(p, name) =>
        var node, st := dir.Mkdir(name, p);
        reply := if st.Ok? then Done else Refused;
      case Unlink(p, name) =>
        var st := dir.Remove(name, p);
        reply := if st.Ok? then Done else Refused;
      case Move(p, name, q, newName) =>
        reply := MoveTo(root, dir, name, newName, p, q);
    }
  }

  /** A rename; that of a cached entry into another directory, which leaves its Parent behind, is not asked for. */
  method MoveTo(root: Node, dir: Node, name: string, newName: string, ghost p: Path, q: Path) returns (reply: Reply)
    requires root.fileSystem.Valid() && At(root, []) && GoodName(name) && GoodName(newName) && GoodPath(q)
    requires dir.fileSystem == root.fileSystem && At(dir, p) && dir.kind.Directory?
    modifies root.fileSystem`cache, root.fileSystem.Nodes(), root.fileSystem.backend
    ensures root.fileSystem.Valid() && At(root, []) && fresh(root.fileSystem.Nodes() - old(root.fileSystem.Nodes()))
    ensures root.fileSystem.backend.healthy && NoneShows(root.fileSystem, q)
            && root.fileSystem.Opens(old(root.fileSystem.backend.tree), p) ==>
              root.fileSystem.Serves(old(root.fileSystem.backend.tree), Move(p, name, q, newName), reply,
                                     root.fileSystem.backend.tree)
  {
    var newDir := WalkTo(root, q);
    reply := Refused;
    if newDir != null {
      if newDir != dir && name in dir.entries {
        return NotAsked;
      }
      var st := dir.Rename(name, newName, newDir, p, q);
      reply := if st.Ok? then Done else Refused;
    }
  }

  /**
     Any run of requests on a fresh mount keeps the cache in step with the backend, and is answered,
     over a healthy one, as by a mount that caches nothing.
     */
  method Run(fs: FileSystem, requests: seq<Request>)
      returns (root: Node, replies: seq<Reply>, ghost trees: seq<Tree>)
    requires [] in fs.backend.tree && fs.backend.tree[[]].Directory?
    requires forall i | 0 <= i < |requests| :: requests[i].Good()
    modifies fs, fs.backend
    ensures fs.Valid() && At(root, []) && root.fileSystem == fs
    ensures |replies| == |requests| && |trees| == |requests| + 1
    ensures trees[0] == old(fs.backend.tree) && trees[|requests|] == fs.backend.tree
    ensures forall i | 0 <= i < |requests| ::
              fs.backend.healthy && requests[i].Plain(fs) ==>
                fs.Serves(trees[i], requests[i], replies[i], trees[i + 1])
  {
    root := fs.Root();
    replies, trees := [], [fs.backend.tree];
    for i := 0 to |requests|
      invariant fs.Valid() && At(root, []) && root.fileSystem == fs && fresh(fs.Nodes())
      invariant |replies| == i && |trees| == i + 1 && trees[0] == old(fs.backend.tree) && trees[i] == fs.backend.tree
      invariant forall k | 0 <= k < i ::
                  fs.backend.healthy && requests[k].Plain(fs) ==>
                    fs.Serves(trees[k], requests[k], replies[k], trees[k + 1])
    {
      var reply := Perform(root, requests[i]);
      replies, trees := replies + [reply], trees + [fs.backend.tree];
    }
  }
}
