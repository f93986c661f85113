/**
 The directory cache of Dir.go as a value, next to the backend's namespace: what the tree of cached
 nodes must satisfy, and what looking up, making, removing and renaming entries does to both.
 */
module Namespaces {
  import opened Basics
  import opened Paths

  datatype Kind = Directory | Regular

  /** The backend's namespace. */
  type Tree = map<Path, Kind>

  /** What one cached node's fields say. */
  datatype Cell<N> = Cell(node: N, name: string, parent: Option<N>, kind: Kind, entries: map<string, N>)

  /** The nodes reachable from the root, by the entry names that lead to them. */
  type Cache<N> = map<Path, Cell<N>>

  function Up(p: Path): Path
    requires p != []
  {
    p[..|p| - 1]
  }

  function Last(p: Path): string
    requires p != []
  {
    p[|p| - 1]
  }

  /** At p or below it. */
  predicate Under(x: Path, p: Path) {
    p <= x
  }

  /** Name and Parent are the key and the directory the node is cached under. */
  ghost predicate Placed<N>(cache: Cache<N>, p: Path)
    requires p in cache
  {
    if p == [] then cache[p].parent.None? && cache[p].kind.Directory?
    else
      && Up(p) in cache && cache[p].parent == Some(cache[Up(p)].node)
      && cache[p].name == Last(p) && GoodName(Last(p))
  }

  ghost predicate EntryAt<N>(cache: Cache<N>, p: Path, node: N) {
    p in cache && cache[p].node == node
  }

  /** Entries are exactly the cached nodes one name further. */
  ghost predicate Linked<N>(cache: Cache<N>, p: Path)
    requires p in cache
  {
    && (forall name | name in cache[p].entries :: EntryAt(cache, p + [name], cache[p].entries[name]))
    && (forall name | p + [name] in cache :: name in cache[p].entries)
    && (cache[p].entries != map[] ==> cache[p].kind.Directory?)
  }

  /** The backend has an object of that kind at that path. */
  ghost predicate Backed<N>(cache: Cache<N>, tree: Tree, p: Path)
    requires p in cache
  {
    p in tree && tree[p] == cache[p].kind
  }

  /** No node is cached twice. */
  ghost predicate Injective<N>(cache: Cache<N>) {
    forall p, q | p in cache && q in cache && cache[p].node == cache[q].node :: p == q
  }

  ghost predicate AllPlaced<N>(cache: Cache<N>) {
    forall p {:trigger Placed(cache, p)} | p in cache :: Placed(cache, p)
  }

  ghost predicate AllLinked<N>(cache: Cache<N>) {
    forall p {:trigger Linked(cache, p)} | p in cache :: Linked(cache, p)
  }

  ghost predicate AllBacked<N>(cache: Cache<N>, tree: Tree) {
    forall p {:trigger Backed(cache, tree, p)} | p in cache :: Backed(cache, tree, p)
  }

  ghost predicate Sound<N>(cache: Cache<N>, tree: Tree) {
    [] in cache && Injective(cache) && AllPlaced(cache) && AllLinked(cache) && AllBacked(cache, tree)
  }

  lemma ChildOf(p: Path, name: string)
    ensures p + [name] != [] && Up(p + [name]) == p && Last(p + [name]) == name
  {}

  lemma UpLast(p: Path)
    requires p != []
    ensures Up(p) + [Last(p)] == p
  {}

  // ---------------------------------------------------------------- what the backend can do

  predicate HasDirectory(tree: Tree, p: Path) {
    p in tree && tree[p].Directory?
  }

  /** The path is free, in a directory that exists. */
  predicate CanMake(tree: Tree, p: Path) {
    p != [] && p !in tree && HasDirectory(tree, Up(p))
  }

  /**
   The object exists, and the target is in a directory that exists, neither inside the object nor above
   it. The target is free or, where the backend `overwrites` files, a file, as the object is.
   */
  predicate CanMove(tree: Tree, from: Path, to: Path, overwrites: bool) {
    && from in tree && to != [] && HasDirectory(tree, Up(to)) && !Under(from, to) && !Under(to, from)
    && (Movable(tree, from, to) || (overwrites && to in tree && tree[to].Regular? && tree[from].Regular?))
  }

  /** The namespace after that. */
  function AfterMove(tree: Tree, from: Path, to: Path): Tree
    requires !Under(from, to) && !Under(to, from)
  {
    Relabelled(Without(tree, to), from, to)
  }

  // ---------------------------------------------------------------- a new entry

  function Added<N>(cache: Cache<N>, p: Path, name: string, node: N, kind: Kind): Cache<N>
    requires p in cache
  {
    var above := cache[p].(entries := cache[p].entries[name := node]);
    cache[p := above][p + [name] := Cell(node, name, Some(cache[p].node), kind, map[])]
  }

  /** Whatever was cached is cached where it was. */
  lemma AddedKeeps<N>(cache: Cache<N>, p: Path, name: string, node: N, kind: Kind)
    requires p in cache
    ensures p + [name] !in cache ==>
              forall x | x in cache ::
                x in Added(cache, p, name, node, kind) && Added(cache, p, name, node, kind)[x].node == cache[x].node
  {}

  ghost predicate CanAdd<N>(cache: Cache<N>, tree: Tree, p: Path, name: string, node: N) {
    && Sound(cache, tree) && p in cache && cache[p].kind.Directory? && GoodName(name) && p + [name] !in cache
    && forall x | x in cache :: cache[x].node != node
  }

  /** Nothing is cached below the new entry. */
  lemma AddedLeaf<N>(cache: Cache<N>, tree: Tree, p: Path, name: string, node: N, kind: Kind)
    requires CanAdd(cache, tree, p, name, node)
    ensures Linked(Added(cache, p, name, node, kind), p + [name])
  {
    var own := p + [name];
    forall n: string
      ensures own + [n] !in cache && own + [n] != p && own + [n] != own
    {
      assert |own + [n]| == |p| + 2;
      if own + [n] in cache {
        assert Placed(cache, own + [n]);
        ChildOf(own, n);
      }
    }
  }

  lemma AddedLinked<N>(cache: Cache<N>, tree: Tree, p: Path, name: string, node: N, kind: Kind, x: Path)
    requires CanAdd(cache, tree, p, name, node) && x in cache
    ensures Linked(Added(cache, p, name, node, kind), x)
  {
    var t, own := Added(cache, p, name, node, kind), p + [name];
    assert Linked(cache, x);
    forall n: string
      ensures x + [n] == own <==> x == p && n == name
    {
      ChildOf(x, n);
      ChildOf(p, name);
    }
    forall n | n in t[x].entries
      ensures EntryAt(t, x + [n], t[x].entries[n])
    {
      if n in cache[x].entries && x + [n] != own {
        assert EntryAt(cache, x + [n], cache[x].entries[n]);
      }
    }
  }

  lemma AddedInjective<N>(cache: Cache<N>, tree: Tree, p: Path, name: string, node: N, kind: Kind)
    requires CanAdd(cache, tree, p, name, node)
    ensures Injective(Added(cache, p, name, node, kind))
  {}

  lemma AddedPlaced<N>(cache: Cache<N>, tree: Tree, p: Path, name: string, node: N, kind: Kind, x: Path)
    requires CanAdd(cache, tree, p, name, node) && (x in cache || x == p + [name])
    ensures Placed(Added(cache, p, name, node, kind), x)
  {
    ChildOf(p, name);
    if x in cache {
      assert Placed(cache, x);
    }
  }

  lemma AddedAllPlaced<N>(cache: Cache<N>, tree: Tree, p: Path, name: string, node: N, kind: Kind)
    requires CanAdd(cache, tree, p, name, node)
    ensures AllPlaced(Added(cache, p, name, node, kind))
  {
    forall x | x in Added(cache, p, name, node, kind)
      ensures Placed(Added(cache, p, name, node, kind), x)
    {
      AddedPlaced(cache, tree, p, name, node, kind, x);
    }
  }

  lemma AddedAllLinked<N>(cache: Cache<N>, tree: Tree, p: Path, name: string, node: N, kind: Kind)
    requires CanAdd(cache, tree, p, name, node)
    ensures AllLinked(Added(cache, p, name, node, kind))
  {
    forall x | x in Added(cache, p, name, node, kind)
      ensures Linked(Added(cache, p, name, node, kind), x)
    {
      if x == p + [name] {
        AddedLeaf(cache, tree, p, name, node, kind);
      } else {
        AddedLinked(cache, tree, p, name, node, kind, x);
      }
    }
  }

  lemma AddedAllBacked<N>(cache: Cache<N>, tree: Tree, p: Path, name: string, node: N, kind: Kind)
    requires CanAdd(cache, tree, p, name, node)
    ensures AllBacked(Added(cache, p, name, node, kind), tree[p + [name] := kind])
  {
    forall x | x in Added(cache, p, name, node, kind)
      ensures Backed(Added(cache, p, name, node, kind), tree[p + [name] := kind], x)
    {
      if x != p + [name] {
        assert Backed(cache, tree, x);
      }
    }
  }

  /** A new entry in a cached directory. */
  lemma AddedSound<N>(cache: Cache<N>, tree: Tree, p: Path, name: string, node: N, kind: Kind)
    requires CanAdd(cache, tree, p, name, node)
    ensures Sound(Added(cache, p, name, node, kind), tree[p + [name] := kind])
  {
    AddedInjective(cache, tree, p, name, node, kind);
    AddedAllPlaced(cache, tree, p, name, node, kind);
    AddedAllLinked(cache, tree, p, name, node, kind);
    AddedAllBacked(cache, tree, p, name, node, kind);
  }

  // ---------------------------------------------------------------- an entry less

  function Without<V>(m: map<Path, V>, p: Path): map<Path, V> {
    map x | x in m && !Under(x, p) :: m[x]
  }

  function Dropped<N>(cache: Cache<N>, p: Path, name: string): Cache<N>
    requires p in cache
  {
    Without(cache[p := cache[p].(entries := cache[p].entries - {name})], p + [name])
  }

  lemma UnderChild(x: Path, n: string, p: Path, name: string)
    ensures Under(x + [n], p + [name]) <==> Under(x, p + [name]) || (x == p && n == name)
  {
    if Under(x + [n], p + [name]) {
      if |x| == |p| {
        assert x + [n] == p + [name];
        ChildOf(x, n);
        ChildOf(p, name);
      } else {
        assert (x + [n])[..|p| + 1] == x[..|p| + 1];
      }
    }
  }

  lemma NotUnderOwnChild(p: Path, name: string)
    ensures !Under(p, p + [name])
  {}

  lemma DroppedPlaced<N>(cache: Cache<N>, tree: Tree, p: Path, name: string, x: Path)
    requires Sound(cache, tree) && p in cache && x in Dropped(cache, p, name)
    ensures Placed(Dropped(cache, p, name), x)
  {
    NotUnderOwnChild(p, name);
    assert Placed(cache, x);
    if x != [] {
      UpLast(x);
      UnderChild(Up(x), Last(x), p, name);
    }
  }

  lemma DroppedLinked<N>(cache: Cache<N>, tree: Tree, p: Path, name: string, x: Path)
    requires Sound(cache, tree) && p in cache && x in Dropped(cache, p, name)
    ensures Linked(Dropped(cache, p, name), x)
  {
    var t := Dropped(cache, p, name);
    NotUnderOwnChild(p, name);
    assert Linked(cache, x);
    forall n: string
      ensures Under(x + [n], p + [name]) <==> x == p && n == name
    {
      UnderChild(x, n, p, name);
    }
    forall n | n in t[x].entries
      ensures EntryAt(t, x + [n], t[x].entries[n])
    {
      assert EntryAt(cache, x + [n], cache[x].entries[n]);
    }
  }

  lemma DroppedAllPlaced<N>(cache: Cache<N>, tree: Tree, p: Path, name: string)
    requires Sound(cache, tree) && p in cache
    ensures AllPlaced(Dropped(cache, p, name))
  {
    forall x | x in Dropped(cache, p, name)
      ensures Placed(Dropped(cache, p, name), x)
    {
      DroppedPlaced(cache, tree, p, name, x);
    }
  }

  lemma DroppedAllLinked<N>(cache: Cache<N>, tree: Tree, p: Path, name: string)
    requires Sound(cache, tree) && p in cache
    ensures AllLinked(Dropped(cache, p, name))
  {
    forall x | x in Dropped(cache, p, name)
      ensures Linked(Dropped(cache, p, name), x)
    {
      DroppedLinked(cache, tree, p, name, x);
    }
  }

  lemma DroppedAllBacked<N>(cache: Cache<N>, tree: Tree, p: Path, name: string)
    requires Sound(cache, tree) && p in cache
    ensures AllBacked(Dropped(cache, p, name), Without(tree, p + [name]))
  {
    forall x | x in Dropped(cache, p, name)
      ensures Backed(Dropped(cache, p, name), Without(tree, p + [name]), x)
    {
      assert Backed(cache, tree, x);
    }
  }

  /** An entry gone, and everything below it with it. */
  lemma DroppedSound<N>(cache: Cache<N>, tree: Tree, p: Path, name: string)
    requires Sound(cache, tree) && p in cache
    ensures Sound(Dropped(cache, p, name), Without(tree, p + [name]))
  {
    DroppedAllPlaced(cache, tree, p, name);
    DroppedAllLinked(cache, tree, p, name);
    DroppedAllBacked(cache, tree, p, name);
  }

  /** Forgetting an entry that the backend still has. */
  lemma ForgottenSound<N>(cache: Cache<N>, tree: Tree, p: Path, name: string)
    requires Sound(cache, tree) && p in cache
    ensures Sound(Dropped(cache, p, name), tree) && p in Dropped(cache, p, name)
    ensures p + [name] !in Dropped(cache, p, name)
  {
    DroppedSound(cache, tree, p, name);
    NotUnderOwnChild(p, name);
    forall x | x in Dropped(cache, p, name)
      ensures Backed(Dropped(cache, p, name), tree, x)
    {
      assert Backed(Dropped(cache, p, name), Without(tree, p + [name]), x);
    }
  }

  /** There is nothing to forget of a name that is not cached. */
  lemma ForgottenNothing<N>(cache: Cache<N>, tree: Tree, p: Path, name: string)
    requires Sound(cache, tree) && p in cache && p + [name] !in cache
    ensures Dropped(cache, p, name) == cache
  {
    assert Linked(cache, p);
    forall n | n in cache[p].entries
      ensures p + [n] in cache
    {
      assert EntryAt(cache, p + [n], cache[p].entries[n]);
    }
    assert cache[p].entries - {name} == cache[p].entries;
    forall x | x in cache
      ensures !Under(x, p + [name])
    {
      if Under(x, p + [name]) {
        AboveIsCached(cache, tree, x, p + [name]);
      }
    }
    assert cache[p := cache[p].(entries := cache[p].entries - {name})] == cache;
  }

  /** A node entered under a name, in the place of what may have been cached there. */
  function Entered<N>(cache: Cache<N>, p: Path, name: string, node: N, kind: Kind): Cache<N>
    requires p in cache
  {
    NotUnderOwnChild(p, name);
    Added(Dropped(cache, p, name), p, name, node, kind)
  }

  /** What is cached afterwards: the node, the directory with its new entry, and the rest as it was. */
  lemma EnteredAt<N>(cache: Cache<N>, p: Path, name: string, node: N, kind: Kind, x: Path)
    requires p in cache && x in Entered(cache, p, name, node, kind)
    ensures x == p + [name] || x in cache
    ensures Entered(cache, p, name, node, kind)[x] ==
            if x == p + [name] then Cell(node, name, Some(cache[p].node), kind, map[])
            else if x == p then cache[p].(entries := cache[p].entries[name := node])
            else cache[x]
  {
    NotUnderOwnChild(p, name);
    assert (cache[p].entries - {name})[name := node] == cache[p].entries[name := node];
  }

  lemma EnteredSound<N>(cache: Cache<N>, tree: Tree, p: Path, name: string, node: N, kind: Kind)
    requires Sound(cache, tree) && p in cache && cache[p].kind.Directory? && GoodName(name)
    requires p + [name] in tree && tree[p + [name]] == kind && forall x | x in cache :: cache[x].node != node
    ensures Sound(Entered(cache, p, name, node, kind), tree)
    ensures p + [name] !in cache ==> Entered(cache, p, name, node, kind) == Added(cache, p, name, node, kind)
  {
    ForgottenSound(cache, tree, p, name);
    AddedSound(Dropped(cache, p, name), tree, p, name, node, kind);
    assert tree[p + [name] := kind] == tree;
    if p + [name] !in cache {
      ForgottenNothing(cache, tree, p, name);
    }
  }

  // ---------------------------------------------------------------- an entry under a new name

  /** Where a path goes when `from` becomes `to`. */
  function Shift(x: Path, from: Path, to: Path): Path {
    if Under(x, from) then to + x[|from|..] else x
  }

  /** Neither lies below the other, and nothing is at or below the target. */
  predicate Movable<V>(m: map<Path, V>, from: Path, to: Path) {
    !Under(from, to) && !Under(to, from) && forall x | x in m :: !Under(x, to)
  }

  lemma ShiftBack(x: Path, from: Path, to: Path)
    requires !Under(x, to)
    ensures Shift(Shift(x, from, to), to, from) == x
    ensures Under(Shift(x, from, to), to) <==> Under(x, from)
  {}

  /** `m` with everything at or below `from` moved to `to`. */
  function Relabelled<V>(m: map<Path, V>, from: Path, to: Path): map<Path, V>
    requires Movable(m, from, to)
  {
    map y | y in (set x | x in m :: Shift(x, from, to)) :: ValueBefore(m, from, to, y)
  }

  function ValueBefore<V>(m: map<Path, V>, from: Path, to: Path, y: Path): V
    requires Movable(m, from, to) && exists x :: x in m && Shift(x, from, to) == y
  {
    assert Shift(y, to, from) in m by {
      var x :| x in m && Shift(x, from, to) == y;
      ShiftBack(x, from, to);
    }
    m[Shift(y, to, from)]
  }

  /** Where a path of the new map came from. */
  lemma RelabelledAt<V>(m: map<Path, V>, from: Path, to: Path, y: Path)
    requires Movable(m, from, to)
    ensures y in Relabelled(m, from, to) <==> Shift(y, to, from) in m && !Under(y, from)
    ensures y in Relabelled(m, from, to) ==> Relabelled(m, from, to)[y] == m[Shift(y, to, from)]
  {
    var x := Shift(y, to, from);
    if x in m && !Under(y, from) {
      ShiftBack(y, to, from);
      assert Shift(x, from, to) == y;
    }
    if y in Relabelled(m, from, to) {
      var z :| z in m && Shift(z, from, to) == y;
      ShiftBack(z, from, to);
      NotLeftBehind(z, from, to);
    }
  }

  /** A move takes along what lies below, leaves nothing behind and touches nothing else. */
  lemma MovedExactly(tree: Tree, from: Path, to: Path, x: Path)
    requires !(from <= to) && !(to <= from)
    ensures var after := AfterMove(tree, from, to);
      && (to <= x ==> (x in after <==> from + x[|to|..] in tree))
      && (to <= x && x in after ==> after[x] == tree[from + x[|to|..]])
      && (from <= x ==> x !in after)
      && (!(to <= x) && !(from <= x) ==> (x in after <==> x in tree) && (x in after ==> after[x] == tree[x]))
  {
    RelabelledAt(Without(tree, to), from, to, x);
  }

  lemma NotLeftBehind(z: Path, from: Path, to: Path)
    requires !Under(from, to) && !Under(to, from)
    ensures !Under(Shift(z, from, to), from)
  {}

  ghost predicate CanRename<N>(cache: Cache<N>, tree: Tree, p: Path, a: string, b: string) {
    && Sound(cache, tree) && p in cache && a in cache[p].entries && GoodName(b) && a != b
    && Movable(tree, p + [a], p + [b]) && Movable(cache, p + [a], p + [b])
  }

  /** What the names in `p` become when `a` is renamed to `b`. */
  function RenamedEntries<N>(entries: map<string, N>, a: string, b: string): map<string, N>
    requires a in entries
  {
    (entries - {a})[b := entries[a]]
  }

  /** The cell at y once the entry `a` of p has become `b`: everything moved along, three fields written. */
  function RenamedCell<N>(cache: Cache<N>, p: Path, a: string, b: string, y: Path): Cell<N>
    requires p in cache && a in cache[p].entries && Shift(y, p + [b], p + [a]) in cache
  {
    var cell := cache[Shift(y, p + [b], p + [a])];
    if y == p then cell.(entries := RenamedEntries(cache[p].entries, a, b))
    else if y == p + [b] then cell.(name := b)
    else cell
  }

  function Renamed<N>(cache: Cache<N>, p: Path, a: string, b: string): Cache<N>
    requires p in cache && a in cache[p].entries && Movable(cache, p + [a], p + [b])
  {
    map y | y in Relabelled(cache, p + [a], p + [b]) ::
      (RelabelledAt(cache, p + [a], p + [b], y); RenamedCell(cache, p, a, b, y))
  }

  lemma RenamedAt<N>(cache: Cache<N>, p: Path, a: string, b: string, y: Path)
    requires p in cache && a in cache[p].entries && Movable(cache, p + [a], p + [b])
    ensures y in Renamed(cache, p, a, b) <==> Shift(y, p + [b], p + [a]) in cache && !Under(y, p + [a])
    ensures y in Renamed(cache, p, a, b) ==> Renamed(cache, p, a, b)[y] == RenamedCell(cache, p, a, b, y)
  {
    RelabelledAt(cache, p + [a], p + [b], y);
  }

  /** Going back and going down commute, except from p itself. */
  lemma BackChild(y: Path, n: string, p: Path, a: string, b: string)
    ensures y == p && n == b ==> Shift(y + [n], p + [b], p + [a]) == p + [a]
    ensures !(y == p && n == b) ==> Shift(y + [n], p + [b], p + [a]) == Shift(y, p + [b], p + [a]) + [n]
  {
    UnderChild(y, n, p, b);
    if Under(y, p + [b]) {
      assert (y + [n])[|p| + 1..] == y[|p| + 1..] + [n];
    }
  }

  lemma RenamedPlaced<N>(cache: Cache<N>, tree: Tree, p: Path, a: string, b: string, y: Path)
    requires CanRename(cache, tree, p, a, b) && y in Renamed(cache, p, a, b)
    ensures Placed(Renamed(cache, p, a, b), y)
  {
    var x := Shift(y, p + [b], p + [a]);
    RenamedAt(cache, p, a, b, y);
    NotUnderOwnChild(p, a);
    NotUnderOwnChild(p, b);
    assert Placed(cache, x);
    if y != [] {
      UpLast(y);
      RenamedAt(cache, p, a, b, Up(y));
      BackChild(Up(y), Last(y), p, a, b);
      UnderChild(Up(y), Last(y), p, a);
      if y == p + [b] {
        ChildOf(p, b);
        ChildOf(p, a);
      } else {
        ChildOf(Shift(Up(y), p + [b], p + [a]), Last(y));
      }
    }
  }

  lemma RenamedNameListed<N>(cache: Cache<N>, tree: Tree, p: Path, a: string, b: string, y: Path, n: string)
    requires CanRename(cache, tree, p, a, b) && y in Renamed(cache, p, a, b) && y + [n] in Renamed(cache, p, a, b)
    ensures n in Renamed(cache, p, a, b)[y].entries
  {
    RenamedAt(cache, p, a, b, y);
    RenamedAt(cache, p, a, b, y + [n]);
    NotUnderOwnChild(p, b);
    BackChild(y, n, p, a, b);
    UnderChild(y, n, p, a);
    assert Linked(cache, Shift(y, p + [b], p + [a])) && Linked(cache, p);
  }

  lemma RenamedKind<N>(cache: Cache<N>, tree: Tree, p: Path, a: string, b: string, y: Path)
    requires CanRename(cache, tree, p, a, b) && y in Renamed(cache, p, a, b)
    ensures Renamed(cache, p, a, b)[y].entries != map[] ==> Renamed(cache, p, a, b)[y].kind.Directory?
  {
    RenamedAt(cache, p, a, b, y);
    NotUnderOwnChild(p, b);
    assert Linked(cache, Shift(y, p + [b], p + [a])) && Linked(cache, p);
  }

  lemma RenamedLinked<N>(cache: Cache<N>, tree: Tree, p: Path, a: string, b: string, y: Path)
    requires CanRename(cache, tree, p, a, b) && y in Renamed(cache, p, a, b)
    ensures Linked(Renamed(cache, p, a, b), y)
  {
    var t := Renamed(cache, p, a, b);
    forall n | n in t[y].entries
      ensures EntryAt(t, y + [n], t[y].entries[n])
    {
      RenamedEntryAt(cache, tree, p, a, b, y, n);
    }
    forall n | y + [n] in t
      ensures n in t[y].entries
    {
      RenamedNameListed(cache, tree, p, a, b, y, n);
    }
    RenamedKind(cache, tree, p, a, b, y);
  }

  /** The new entry itself. */
  lemma RenamedOwnEntry<N>(cache: Cache<N>, tree: Tree, p: Path, a: string, b: string)
    requires CanRename(cache, tree, p, a, b)
    ensures EntryAt(Renamed(cache, p, a, b), p + [b], cache[p].entries[a])
  {
    RenamedAt(cache, p, a, b, p + [b]);
    NotUnderOwnChild(p, b);
    BackChild(p, b, p, a, b);
    UnderChild(p, b, p, a);
    NotUnderOwnChild(p, a);
    assert Linked(cache, p) && EntryAt(cache, p + [a], cache[p].entries[a]);
  }

  /** Any other entry. */
  lemma RenamedOtherEntry<N>(cache: Cache<N>, tree: Tree, p: Path, a: string, b: string, y: Path, n: string)
    requires CanRename(cache, tree, p, a, b) && y in Renamed(cache, p, a, b) && !(y == p && (n == a || n == b))
    requires Shift(y, p + [b], p + [a]) in cache && n in cache[Shift(y, p + [b], p + [a])].entries
    ensures EntryAt(Renamed(cache, p, a, b), y + [n], cache[Shift(y, p + [b], p + [a])].entries[n])
  {
    var x := Shift(y, p + [b], p + [a]);
    RenamedAt(cache, p, a, b, y);
    RenamedAt(cache, p, a, b, y + [n]);
    NotUnderOwnChild(p, b);
    BackChild(y, n, p, a, b);
    UnderChild(y, n, p, a);
    assert Linked(cache, x) && EntryAt(cache, x + [n], cache[x].entries[n]);
  }

  lemma RenamedEntryAt<N>(cache: Cache<N>, tree: Tree, p: Path, a: string, b: string, y: Path, n: string)
    requires CanRename(cache, tree, p, a, b) && y in Renamed(cache, p, a, b) && n in Renamed(cache, p, a, b)[y].entries
    ensures EntryAt(Renamed(cache, p, a, b), y + [n], Renamed(cache, p, a, b)[y].entries[n])
  {
    RenamedAt(cache, p, a, b, y);
    NotUnderOwnChild(p, b);
    if y == p && n == b {
      RenamedOwnEntry(cache, tree, p, a, b);
    } else {
      RenamedOtherEntry(cache, tree, p, a, b, y, n);
    }
  }

  lemma SameSource(y: Path, z: Path, from: Path, to: Path)
    requires !Under(y, from) && !Under(z, from) && Shift(y, to, from) == Shift(z, to, from)
    ensures y == z
  {
    ShiftBack(y, to, from);
    ShiftBack(z, to, from);
  }

  lemma RenamedInjective<N>(cache: Cache<N>, tree: Tree, p: Path, a: string, b: string)
    requires CanRename(cache, tree, p, a, b)
    ensures Injective(Renamed(cache, p, a, b))
  {
    var t, from, to := Renamed(cache, p, a, b), p + [a], p + [b];
    forall y, z | y in t && z in t && t[y].node == t[z].node
      ensures y == z
    {
      RenamedNode(cache, p, a, b, y);
      RenamedNode(cache, p, a, b, z);
      SameSource(y, z, from, to);
    }
  }

  lemma RenamedNode<N>(cache: Cache<N>, p: Path, a: string, b: string, y: Path)
    requires p in cache && a in cache[p].entries && Movable(cache, p + [a], p + [b]) && y in Renamed(cache, p, a, b)
    ensures Shift(y, p + [b], p + [a]) in cache && !Under(y, p + [a])
    ensures Renamed(cache, p, a, b)[y].node == cache[Shift(y, p + [b], p + [a])].node
  {
    RenamedAt(cache, p, a, b, y);
    NotUnderOwnChild(p, b);
  }

  lemma RenamedAllPlaced<N>(cache: Cache<N>, tree: Tree, p: Path, a: string, b: string)
    requires CanRename(cache, tree, p, a, b)
    ensures AllPlaced(Renamed(cache, p, a, b))
  {
    forall y | y in Renamed(cache, p, a, b)
      ensures Placed(Renamed(cache, p, a, b), y)
    {
      RenamedPlaced(cache, tree, p, a, b, y);
    }
  }

  lemma RenamedAllLinked<N>(cache: Cache<N>, tree: Tree, p: Path, a: string, b: string)
    requires CanRename(cache, tree, p, a, b)
    ensures AllLinked(Renamed(cache, p, a, b))
  {
    forall y | y in Renamed(cache, p, a, b)
      ensures Linked(Renamed(cache, p, a, b), y)
    {
      RenamedLinked(cache, tree, p, a, b, y);
    }
  }

  lemma RenamedBacked<N>(cache: Cache<N>, tree: Tree, p: Path, a: string, b: string, y: Path)
    requires CanRename(cache, tree, p, a, b) && y in Renamed(cache, p, a, b)
    ensures Backed(Renamed(cache, p, a, b), Relabelled(tree, p + [a], p + [b]), y)
  {
    RenamedAt(cache, p, a, b, y);
    NotUnderOwnChild(p, b);
    RelabelledAt(tree, p + [a], p + [b], y);
    assert Backed(cache, tree, Shift(y, p + [b], p + [a]));
  }

  lemma RenamedAllBacked<N>(cache: Cache<N>, tree: Tree, p: Path, a: string, b: string)
    requires CanRename(cache, tree, p, a, b)
    ensures AllBacked(Renamed(cache, p, a, b), Relabelled(tree, p + [a], p + [b]))
  {
    forall y | y in Renamed(cache, p, a, b)
      ensures Backed(Renamed(cache, p, a, b), Relabelled(tree, p + [a], p + [b]), y)
    {
      RenamedBacked(cache, tree, p, a, b, y);
    }
  }

  /**
   A renamed entry, with everything cached below it: only the entry's own name and the directory's
   table are written, yet every path that leads through it changes in the cache as in the backend.
   */
  lemma RenamedSound<N>(cache: Cache<N>, tree: Tree, p: Path, a: string, b: string)
    requires CanRename(cache, tree, p, a, b)
    ensures Sound(Renamed(cache, p, a, b), Relabelled(tree, p + [a], p + [b]))
  {
    RenamedInjective(cache, tree, p, a, b);
    RenamedAt(cache, p, a, b, []);
    RenamedAllPlaced(cache, tree, p, a, b);
    RenamedAllLinked(cache, tree, p, a, b);
    RenamedAllBacked(cache, tree, p, a, b);
  }

  /** Everything on the way to a cached node is cached. */
  lemma {:induction false} AboveIsCached<N>(cache: Cache<N>, tree: Tree, x: Path, q: Path)
    requires Sound(cache, tree) && x in cache && Under(x, q)
    ensures q in cache
    decreases |x|
  {
    if |x| == |q| {
      assert x == q;
    } else {
      assert Placed(cache, x);
      assert Up(x)[..|q|] == x[..|q|];
      AboveIsCached(cache, tree, Up(x), q);
    }
  }

  /** Nothing is cached below a file. */
  lemma NothingBelowFile<N>(cache: Cache<N>, tree: Tree, file: Path, x: Path)
    requires Sound(cache, tree) && file in tree && tree[file].Regular? && x in cache && Under(x, file)
    ensures x == file
  {
    AboveIsCached(cache, tree, x, file);
    assert Backed(cache, tree, file) && Linked(cache, file);
    if x != file {
      var child := x[..|file| + 1];
      assert child == file + [x[|file|]] && Under(x, child);
      AboveIsCached(cache, tree, x, child);
    }
  }

  /** A rename of something that is not cached leaves the cache sound as it is, what it replaces included. */
  lemma UncachedRenameSound<N>(cache: Cache<N>, tree: Tree, from: Path, to: Path, overwrites: bool)
    requires Sound(cache, tree) && from !in cache && CanMove(tree, from, to, overwrites)
    ensures Sound(cache, AfterMove(tree, from, to))
  {
    forall x | x in cache
      ensures Backed(cache, AfterMove(tree, from, to), x)
    {
      assert Backed(cache, tree, x);
      if Under(x, from) {
        AboveIsCached(cache, tree, x, from);
      }
      if Under(x, to) {
        NothingBelowFile(cache, tree, to, x);
        assert Shift(x, to, from) == from;
      }
      RelabelledAt(Without(tree, to), from, to, x);
    }
  }

  /** The cache once the entry `a` of p is called `b`, and what was cached there is forgotten. */
  ghost predicate RenamedOver<N>(before: Cache<N>, after: Cache<N>, p: Path, a: string, b: string) {
    && p in before && p in Dropped(before, p, b) && a in Dropped(before, p, b)[p].entries
    && Movable(Dropped(before, p, b), p + [a], p + [b])
    && after == Renamed(Dropped(before, p, b), p, a, b)
  }

  /** A rename in a directory, after what it replaces has been forgotten, is one to a free name. */
  lemma RenamableOverTarget<N>(cache: Cache<N>, tree: Tree, p: Path, a: string, b: string)
    requires Sound(cache, tree) && p in cache && a in cache[p].entries && GoodName(b)
    requires !Under(p + [a], p + [b]) && !Under(p + [b], p + [a])
    ensures p in Dropped(cache, p, b) && Dropped(cache, p, b)[p] == cache[p].(entries := cache[p].entries - {b})
    ensures CanRename(Dropped(cache, p, b), Without(tree, p + [b]), p, a, b)
  {
    DroppedSound(cache, tree, p, b);
    NotUnderOwnChild(p, b);
  }
}
