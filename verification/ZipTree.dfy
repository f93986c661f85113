/** What ZipDir.ReadArchive builds, as a value, and when that is the tree the archive describes. */
module ZipTrees {
  import opened Paths

  /** A folder: the entry that created it (-1 for the root) and its files with the entries that created them. */
  datatype Folder = Folder(entry: int, files: map<string, nat>)

  /** An archived name: where it is, and whether it ends in a slash, which denotes a directory. */
  datatype Item = Item(path: Path, dir: bool)
  {
    function Components(): seq<string> {
      if dir then path + [""] else path
    }

    /** No empty components apart from a directory's last. */
    predicate Normalised() {
      path != [] && "" !in path
    }
  }

  function Parse(name: string): (item: Item)
    ensures item.Components() == Split(name)
  {
    var parts := Split(name);
    if |parts| > 1 && parts[|parts| - 1] == "" then Item(parts[..|parts| - 1], true) else Item(parts, false)
  }

  function Listing(names: seq<string>): (items: seq<Item>)
    ensures |items| == |names| && forall k | 0 <= k < |names| :: items[k] == Parse(names[k])
  {
    seq(|names|, k requires 0 <= k < |names| => Parse(names[k]))
  }

  /** Folders by path; a folder's sub-folders are those one name longer. */
  type Tree = map<Path, Folder>

  const EMPTY: Tree := map[[] := Folder(-1, map[])]

  datatype Node = DirNode(entry: int) | FileNode(entry: int) | NoNode

  /** What Lookup finds, one name after another: sub-folders before files. */
  function Find(tree: Tree, path: Path): Node {
    if path in tree then DirNode(tree[path].entry)
    else if path == [] then NoNode
    else
      var parent, name := path[..|path| - 1], path[|path| - 1];
      if parent in tree && name in tree[parent].files then FileNode(tree[parent].files[name]) else NoNode
  }

  /** The tree under construction and the `dir` cursor. */
  datatype Cursor = Cursor(tree: Tree, at: Path)
  {
    predicate Valid() {
      at in tree
    }
  }

  /**
   One turn of the inner loop. A folder that is missing is created, but the cursor does not move
   into it: what follows lands beside it.
   */
  function Advance(u: Cursor, name: string, last: bool, entry: nat): (w: Cursor)
    requires u.Valid()
    ensures w.Valid() && u.tree.Keys <= w.tree.Keys
  {
    if name == "" then u
    else if u.at + [name] in u.tree then u.(at := u.at + [name])
    else if last then
      var folder := u.tree[u.at];
      u.(tree := u.tree[u.at := folder.(files := folder.files[name := entry])])
    else u.(tree := u.tree[u.at + [name] := Folder(entry, map[])])
  }

  /** The inner loop after n components. */
  function Walk(tree: Tree, components: seq<string>, n: nat, entry: nat): (w: Cursor)
    requires [] in tree && n <= |components|
    ensures w.Valid() && tree.Keys <= w.tree.Keys
  {
    if n == 0 then Cursor(tree, [])
    else Advance(Walk(tree, components, n - 1, entry), components[n - 1], n == |components|, entry)
  }

  function Insert(tree: Tree, item: Item, entry: nat): (t: Tree)
    requires [] in tree
    ensures tree.Keys <= t.Keys
  {
    Walk(tree, item.Components(), |item.Components()|, entry).tree
  }

  /** The tree after the first n entries of the archive. */
  function Build(items: seq<Item>, n: nat): (tree: Tree)
    requires n <= |items|
    ensures [] in tree
  {
    if n == 0 then EMPTY else Insert(Build(items, n - 1), items[n - 1], n - 1)
  }

  // ---------------------------------------------------------------- what the archive says

  /** Normalised names of distinct paths. */
  ghost predicate WellNamed(items: seq<Item>) {
    && (forall k | 0 <= k < |items| :: items[k].Normalised())
    && (forall j, k | 0 <= j < k < |items| :: items[j].path != items[k].path)
  }

  /** One of the first k entries is the directory `path`. */
  ghost predicate Listed(items: seq<Item>, k: nat, path: Path)
    requires k <= |items|
  {
    exists j | 0 <= j < k :: items[j].dir && items[j].path == path
  }

  /** The k-th entry comes after explicit entries for all directories on its way. */
  ghost predicate ParentsListed(items: seq<Item>, k: nat)
    requires k < |items|
  {
    forall n | 0 < n < |items[k].path| :: Listed(items, k, items[k].path[..n])
  }

  /** What looking up the k-th entry's path should give. */
  function OwnNode(items: seq<Item>, k: nat): Node
    requires k < |items|
  {
    if items[k].dir then DirNode(k) else FileNode(k)
  }

  ghost predicate FoldersListed(items: seq<Item>, k: nat, tree: Tree)
    requires k <= |items|
  {
    forall path | path in tree :: path == [] || Listed(items, k, path)
  }

  ghost predicate FilesListed(items: seq<Item>, k: nat, tree: Tree)
    requires k <= |items|
  {
    forall path, name | path in tree && name in tree[path].files ::
      ComesFrom(items, k, path + [name], tree[path].files[name])
  }

  ghost predicate ComesFrom(items: seq<Item>, k: nat, path: Path, j: nat)
    requires k <= |items|
  {
    j < k && !items[j].dir && items[j].path == path
  }

  ghost predicate EntriesFound(items: seq<Item>, k: nat, tree: Tree)
    requires k <= |items|
  {
    forall j | 0 <= j < k :: Find(tree, items[j].path) == OwnNode(items, j)
  }

  /** The tree holds the first k entries and nothing else. */
  ghost predicate Faithful(items: seq<Item>, k: nat, tree: Tree)
    requires k <= |items|
  {
    FoldersListed(items, k, tree) && FilesListed(items, k, tree) && EntriesFound(items, k, tree)
  }

  // ---------------------------------------------------------------- entries whose parents are listed

  /** As long as the folders on the way exist, the cursor follows the components. */
  lemma {:induction false} WalkDescends(tree: Tree, components: seq<string>, n: nat, entry: nat)
    requires [] in tree && n <= |components| && "" !in components[..n]
    requires forall i | 0 < i <= n :: components[..i] in tree
    ensures Walk(tree, components, n, entry) == Cursor(tree, components[..n])
  {
    if n > 0 {
      assert components[..n][..n - 1] == components[..n - 1];
      assert components[n - 1] == components[..n][n - 1];
      WalkDescends(tree, components, n - 1, entry);
      assert components[..n - 1] + [components[n - 1]] == components[..n];
    } else {
      assert components[..0] == [];
    }
  }

  /** `tree` with one more entry at `path`. */
  function Put(tree: Tree, path: Path, dir: bool, entry: nat): Tree
    requires path != [] && path[..|path| - 1] in tree
  {
    var parent, own := path[..|path| - 1], path[|path| - 1];
    if dir then tree[path := Folder(entry, map[])]
    else tree[parent := tree[parent].(files := tree[parent].files[own := entry])]
  }

  /** What inserting an entry does when all folders on its way exist and nothing is at its path. */
  lemma InsertInPlace(tree: Tree, item: Item, entry: nat)
    requires [] in tree && item.Normalised() && item.path !in tree
    requires forall i | 0 < i < |item.path| :: item.path[..i] in tree
    ensures item.path[..|item.path| - 1] in tree
    ensures Insert(tree, item, entry) == Put(tree, item.path, item.dir, entry)
  {
    var parts, path := item.Components(), item.path;
    var m := |path| - 1;
    assert forall i | 0 <= i <= |path| :: parts[..i] == path[..i];
    if m > 0 {
      assert path[..m] in tree;
    } else {
      assert path[..m] == [];
    }
    forall i | 0 < i <= m
      ensures parts[..i] in tree
    {
      assert path[..i] in tree;
    }
    WalkDescends(tree, parts, m, entry);
    assert path[..m] + [path[m]] == path;
    assert Walk(tree, parts, m + 1, entry) == Advance(Cursor(tree, path[..m]), path[m], m + 1 == |parts|, entry);
  }

  lemma BuildStep(items: seq<Item>, k: nat)
    requires k < |items|
    ensures Build(items, k + 1) == Insert(Build(items, k), items[k], k)
  {}

  lemma {:induction false} BuildFaithful(items: seq<Item>, k: nat, tree: Tree)
    requires WellNamed(items) && k <= |items| && forall j | 0 <= j < k :: ParentsListed(items, j)
    requires tree == Build(items, k)
    ensures Faithful(items, k, tree)
  {
    if k > 0 {
      var i: nat, before := k - 1, Build(items, k - 1);
      BuildFaithful(items, i, before);
      BuildStep(items, i);
      InsertFaithful(items, i, before);
    } else {
      assert tree == EMPTY;
    }
  }

  lemma InsertFaithful(items: seq<Item>, k: nat, tree: Tree)
    requires WellNamed(items) && k < |items| && ParentsListed(items, k)
    requires [] in tree && Faithful(items, k, tree)
    ensures Faithful(items, k + 1, Insert(tree, items[k], k))
  {
    var path := items[k].path;
    assert items[k].Normalised();
    forall i | 0 < i < |path|
      ensures path[..i] in tree
    {
      DirFound(items, k, tree, path[..i]);
    }
    NewPath(items, k, tree);
    InsertInPlace(tree, items[k], k);
    PutFoldersListed(items, k, tree);
    PutFilesListed(items, k, tree);
    PutEntriesFound(items, k, tree);
  }

  lemma DirFound(items: seq<Item>, k: nat, tree: Tree, path: Path)
    requires k <= |items| && EntriesFound(items, k, tree) && Listed(items, k, path)
    ensures path in tree
  {}

  lemma NewPath(items: seq<Item>, k: nat, tree: Tree)
    requires WellNamed(items) && k < |items| && FoldersListed(items, k, tree)
    ensures items[k].path !in tree && items[k].path != []
  {}

  /** The new entry is about to be put into a tree that holds the first k. */
  ghost predicate AboutToPut(items: seq<Item>, k: nat, tree: Tree) {
    && WellNamed(items) && k < |items| && Faithful(items, k, tree)
    && items[k].path != [] && items[k].path !in tree && items[k].path[..|items[k].path| - 1] in tree
  }

  lemma PutFoldersListed(items: seq<Item>, k: nat, tree: Tree)
    requires AboutToPut(items, k, tree)
    ensures FoldersListed(items, k + 1, Put(tree, items[k].path, items[k].dir, k))
  {}

  lemma PutFilesListed(items: seq<Item>, k: nat, tree: Tree)
    requires AboutToPut(items, k, tree)
    ensures FilesListed(items, k + 1, Put(tree, items[k].path, items[k].dir, k))
  {}

  lemma PutEntriesFound(items: seq<Item>, k: nat, tree: Tree)
    requires AboutToPut(items, k, tree)
    ensures EntriesFound(items, k + 1, Put(tree, items[k].path, items[k].dir, k))
  {}

  // ---------------------------------------------------------------- entries whose parents are not listed

  /** Nothing in the tree comes from this entry or a later one. */
  ghost predicate Unmarked(tree: Tree, entry: nat) {
    && (forall path | path in tree :: tree[path].entry < entry)
    && (forall path, name | path in tree && name in tree[path].files :: tree[path].files[name] < entry)
  }

  /** What comes from this entry lies less than `size` items deep. */
  ghost predicate Shallow(tree: Tree, entry: nat, size: nat) {
    && (forall path | path in tree && tree[path].entry == entry :: |path| < size)
    && (forall path, name | path in tree && name in tree[path].files && tree[path].files[name] == entry ::
          |path| + 1 < size)
  }

  lemma {:induction false} WalkMarksBelow(tree: Tree, parts: seq<string>, n: nat, entry: nat)
    requires [] in tree && n <= |parts| && Unmarked(tree, entry)
    ensures Unmarked(Walk(tree, parts, n, entry).tree, entry + 1)
  {
    if n > 0 {
      WalkMarksBelow(tree, parts, n - 1, entry);
    }
  }

  lemma {:induction false} BuildMarksBelow(items: seq<Item>, n: nat)
    requires n <= |items|
    ensures Unmarked(Build(items, n), n)
  {
    if n > 0 {
      BuildMarksBelow(items, n - 1);
      WalkMarksBelow(Build(items, n - 1), items[n - 1].Components(), |items[n - 1].Components()|, n - 1);
    }
  }

  /** Other entries do not touch what comes from this one. */
  lemma {:induction false} WalkKeepsShallow(tree: Tree, parts: seq<string>, n: nat, other: nat, entry: nat, size: nat)
    requires [] in tree && n <= |parts| && other != entry && Shallow(tree, entry, size)
    ensures Shallow(Walk(tree, parts, n, other).tree, entry, size)
  {
    if n > 0 {
      WalkKeepsShallow(tree, parts, n - 1, other, entry, size);
    }
  }

  /** A cursor that lags behind by the n-th component keeps lagging. */
  lemma LagStep(u: Cursor, name: string, last: bool, entry: nat, n: nat, size: nat)
    requires u.Valid() && |u.at| < n && |u.at| < size && Shallow(u.tree, entry, size) && (n >= size ==> name == "")
    ensures var w := Advance(u, name, last, entry);
      |w.at| < n + 1 && |w.at| < size && Shallow(w.tree, entry, size)
  {}

  /** The first missing folder is created, and the cursor stays above it. */
  lemma LagStart(tree: Tree, parts: seq<string>, entry: nat, m: nat, size: nat)
    requires [] in tree && Unmarked(tree, entry) && 0 < m < size <= |parts| && "" !in parts[..size]
    requires parts[..m] !in tree && forall i | 0 < i < m :: parts[..i] in tree
    ensures var w := Walk(tree, parts, m, entry);
      |w.at| < m && Shallow(w.tree, entry, size)
  {
    assert parts[..m - 1] == parts[..size][..m - 1] && parts[m - 1] == parts[..size][m - 1];
    WalkDescends(tree, parts, m - 1, entry);
    assert parts[..m - 1] + [parts[m - 1]] == parts[..m];
  }

  /** From the first missing folder on, the cursor lags behind, and the entry's marks with it. */
  lemma {:induction false} WalkLags(tree: Tree, parts: seq<string>, n: nat, entry: nat, m: nat, size: nat)
    requires [] in tree && Unmarked(tree, entry)
    requires 0 < m < size <= |parts| && m <= n <= |parts|
    requires "" !in parts[..size] && forall i | size <= i < |parts| :: parts[i] == ""
    requires parts[..m] !in tree && forall i | 0 < i < m :: parts[..i] in tree
    ensures |Walk(tree, parts, n, entry).at| < n && |Walk(tree, parts, n, entry).at| < size
    ensures Shallow(Walk(tree, parts, n, entry).tree, entry, size)
  {
    if n == m {
      LagStart(tree, parts, entry, m, size);
    } else {
      WalkLags(tree, parts, n - 1, entry, m, size);
      LagStep(Walk(tree, parts, n - 1, entry), parts[n - 1], n == |parts|, entry, n - 1, size);
    }
  }

  lemma {:induction false} FirstMissing(tree: Tree, path: Path, n: nat) returns (m: nat)
    requires 0 < n <= |path| && path[..n] !in tree
    ensures 0 < m <= n && path[..m] !in tree && forall i | 0 < i < m :: path[..i] in tree
  {
    m := 1;
    while path[..m] in tree
      invariant 0 < m <= n && forall i | 0 < i < m :: path[..i] in tree
      decreases n - m
    {
      m := m + 1;
    }
  }

  /** An entry with an unlisted parent leaves its marks too high up. */
  lemma InsertLost(items: seq<Item>, k: nat, tree: Tree, n: nat)
    requires WellNamed(items) && k < |items| && [] in tree && FoldersListed(items, k, tree) && Unmarked(tree, k)
    requires 0 < n < |items[k].path| && !Listed(items, k, items[k].path[..n])
    ensures Shallow(Insert(tree, items[k], k), k, |items[k].path|)
  {
    var parts, path := items[k].Components(), items[k].path;
    assert items[k].Normalised();
    var m := FirstMissing(tree, path, n);
    assert forall i | 0 <= i <= |path| :: parts[..i] == path[..i];
    forall i | 0 < i < m
      ensures parts[..i] in tree
    {
      assert path[..i] in tree;
    }
    WalkLags(tree, parts, |parts|, k, m, |path|);
  }

  /** No later entry repairs that. */
  lemma {:induction false} StaysLost(items: seq<Item>, k: nat, n: nat, size: nat)
    requires k < n <= |items| && Shallow(Build(items, k + 1), k, size)
    ensures Shallow(Build(items, n), k, size)
  {
    if n > k + 1 {
      StaysLost(items, k, n - 1, size);
      WalkKeepsShallow(Build(items, n - 1), items[n - 1].Components(), |items[n - 1].Components()|, n - 1, k, size);
    }
  }

  lemma ShallowNotFound(items: seq<Item>, k: nat, tree: Tree)
    requires k < |items| && Shallow(tree, k, |items[k].path|)
    ensures Find(tree, items[k].path) != OwnNode(items, k)
  {}

  lemma {:induction false} FirstUnlisted(items: seq<Item>, n: nat) returns (k: nat)
    requires n <= |items| && exists j :: 0 <= j < n && !ParentsListed(items, j)
    ensures k < n && !ParentsListed(items, k) && forall j | 0 <= j < k :: ParentsListed(items, j)
  {
    k := 0;
    while ParentsListed(items, k)
      invariant k < n && forall j | 0 <= j < k :: ParentsListed(items, j)
      invariant exists j :: k <= j < n && !ParentsListed(items, j)
      decreases n - k
    {
      k := k + 1;
    }
  }

  /** Every directory on the way of every entry is listed before that entry. */
  ghost predicate ParentsFirst(items: seq<Item>) {
    forall k | 0 <= k < |items| :: ParentsListed(items, k)
  }

  /** The first entry whose parents are not listed is never found at its path, whatever follows. */
  lemma MisplacedForGood(items: seq<Item>, k: nat, tree: Tree)
    requires WellNamed(items) && tree == Build(items, |items|)
    requires k < |items| && !ParentsListed(items, k) && forall j | 0 <= j < k :: ParentsListed(items, j)
    ensures Find(tree, items[k].path) != OwnNode(items, k)
  {
    BuildFaithful(items, k, Build(items, k));
    BuildMarksBelow(items, k);
    var n :| 0 < n < |items[k].path| && !Listed(items, k, items[k].path[..n]);
    InsertLost(items, k, Build(items, k), n);
    BuildStep(items, k);
    StaysLost(items, k, |items|, |items[k].path|);
    ShallowNotFound(items, k, tree);
  }

  // ---------------------------------------------------------------- names that are not found at all

  /** No folder or file has an empty name, and only the root has no entry. */
  ghost predicate Named(tree: Tree) {
    && [] in tree && tree[[]].entry == -1 && (forall path | path in tree :: "" !in path)
    && (forall path, name | path in tree && name in tree[path].files :: name != "")
  }

  lemma {:induction false} WalkNamed(tree: Tree, parts: seq<string>, n: nat, entry: nat)
    requires Named(tree) && n <= |parts|
    ensures Named(Walk(tree, parts, n, entry).tree)
  {
    if n > 0 {
      WalkNamed(tree, parts, n - 1, entry);
      var before := Walk(tree, parts, n - 1, entry);
      assert "" in before.at + [parts[n - 1]] <==> "" in before.at || "" == parts[n - 1];
    }
  }

  lemma {:induction false} BuildNamed(items: seq<Item>, n: nat)
    requires n <= |items|
    ensures Named(Build(items, n))
  {
    if n > 0 {
      BuildNamed(items, n - 1);
      WalkNamed(Build(items, n - 1), items[n - 1].Components(), |items[n - 1].Components()|, n - 1);
    }
  }

  /** What is found at its own path has a normalised name, and no other entry has that path. */
  lemma FoundIsWellNamed(items: seq<Item>, tree: Tree)
    requires Named(tree) && EntriesFound(items, |items|, tree)
    ensures WellNamed(items)
  {
    forall k | 0 <= k < |items|
      ensures items[k].Normalised()
    {
      var path := items[k].path;
      assert Find(tree, path) == OwnNode(items, k);
      if path != [] && path !in tree {
        assert path == path[..|path| - 1] + [path[|path| - 1]];
      }
    }
    forall j, k | 0 <= j < k < |items|
      ensures items[j].path != items[k].path
    {
      assert Find(tree, items[j].path) == OwnNode(items, j) && Find(tree, items[k].path) == OwnNode(items, k);
    }
  }

  /** The two lists differ in an empty component at position k, which does not end the longer one. */
  ghost predicate OneEmptyMore(p: seq<string>, q: seq<string>, k: nat) {
    && |p| == |q| + 1 && k < |q| && p[..k] == q[..k] && p[k] == ""
    && forall i | k <= i < |q| :: p[i + 1] == q[i]
  }

  lemma {:induction false} WalkSkipsEmpty(tree: Tree, p: seq<string>, q: seq<string>, k: nat, n: nat, entry: nat)
    requires [] in tree && OneEmptyMore(p, q, k) && k <= n <= |q|
    ensures Walk(tree, p, n + 1, entry) == Walk(tree, q, n, entry)
  {
    if n > k {
      WalkSkipsEmpty(tree, p, q, k, n - 1, entry);
      assert p[n] == q[n - 1];
    } else {
      WalkSameStart(tree, p, q, k, entry);
    }
  }

  /** How the walk begins depends on the first components alone. */
  lemma {:induction false} WalkSameStart(tree: Tree, p: seq<string>, q: seq<string>, n: nat, entry: nat)
    requires [] in tree && n < |p| && n < |q| && p[..n] == q[..n]
    ensures Walk(tree, p, n, entry) == Walk(tree, q, n, entry)
  {
    if n > 0 {
      assert p[..n][..n - 1] == p[..n - 1] && q[..n][..n - 1] == q[..n - 1];
      assert p[n - 1] == p[..n][n - 1] && q[n - 1] == q[..n][n - 1];
      WalkSameStart(tree, p, q, n - 1, entry);
    }
  }

  /** A doubled or a leading slash in a name makes no difference to where its entry lands. */
  lemma EmptyComponentsIgnored(tree: Tree, a: Path, b: Path, dir: bool, entry: nat)
    requires [] in tree && (b != [] || dir)
    ensures Insert(tree, Item(a + [""] + b, dir), entry) == Insert(tree, Item(a + b, dir), entry)
  {
    var rest := Item(b, dir).Components();
    assert Item(a + [""] + b, dir).Components() == a + [""] + rest;
    assert Item(a + b, dir).Components() == a + rest;
    WalkSkipsEmpty(tree, a + [""] + rest, a + rest, |a|, |a + rest|, entry);
  }

  /** Of a file and a directory of one name the directory is found, whichever the archive lists first. */
  lemma DirectoryHidesFile(name: string, tree: Tree)
    requires name != ""
    ensures tree == Build([Item([name], false), Item([name], true)], 2) ==> Find(tree, [name]) == DirNode(1)
    ensures tree == Build([Item([name], true), Item([name], false)], 2) ==> Find(tree, [name]) == DirNode(0)
  {
    var file, folder := Item([name], false), Item([name], true);
    InsertTop(EMPTY, file, 0);
    InsertTop(EMPTY, folder, 0);
    InsertTop(Insert(EMPTY, file, 0), folder, 1);
    InsertTop(Insert(EMPTY, folder, 0), file, 1);
    BuildTwo(file, folder);
    BuildTwo(folder, file);
  }

  lemma BuildTwo(first: Item, second: Item)
    ensures Build([first, second], 2) == Insert(Insert(EMPTY, first, 0), second, 1)
  {
    BuildStep([first, second], 0);
    BuildStep([first, second], 1);
  }

  /** An entry of one name. */
  lemma InsertTop(tree: Tree, item: Item, entry: nat)
    requires [] in tree && item.Normalised() && |item.path| == 1
    ensures Insert(tree, item, entry) ==
            if item.path in tree then tree else Put(tree, item.path, item.dir, entry)
  {
    var parts := item.Components();
    assert [] + [parts[0]] == item.path;
    assert Walk(tree, parts, 0, entry) == Cursor(tree, []);
    assert Walk(tree, parts, 1, entry) == Advance(Cursor(tree, []), parts[0], 1 == |parts|, entry);
  }

  /**
   Looking up every entry's path finds that entry exactly when the names are normalised, no two
   entries have the same path, and every directory on the way of every entry is listed before it.
   Then, too, every folder and file of the tree comes from an entry.
   */
  lemma TreeMatchesArchiveIffParentsFirst(items: seq<Item>, tree: Tree)
    requires tree == Build(items, |items|)
    ensures EntriesFound(items, |items|, tree) <==> WellNamed(items) && ParentsFirst(items)
    ensures WellNamed(items) && ParentsFirst(items) ==> Faithful(items, |items|, tree)
  {
    BuildNamed(items, |items|);
    if EntriesFound(items, |items|, tree) {
      FoundIsWellNamed(items, tree);
    }
    if WellNamed(items) {
      if ParentsFirst(items) {
        BuildFaithful(items, |items|, tree);
      } else {
        var k := FirstUnlisted(items, |items|);
        MisplacedForGood(items, k, tree);
      }
    }
  }
}
