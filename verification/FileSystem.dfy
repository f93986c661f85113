/** FileSystem.go: which paths the mount exposes. */
module FileSystems {
  import opened Paths

  /** One prefix lets a path through: it is the wildcard, the path itself, or a directory above it. */
  predicate Admits(prefix: string, path: string) {
    prefix == "*" || "/" + prefix == path || "/" + prefix + "/" <= path
  }

  ghost predicate Allowed(prefixes: seq<string>, path: string) {
    path == "/" || exists i :: 0 <= i < |prefixes| && Admits(prefixes[i], path)
  }

  method IsPathAllowed(prefixes: seq<string>, path: string) returns (allowed: bool)
    ensures allowed <==> Allowed(prefixes, path)
  {
    if path == "/" {
      return true;
    }
    for i := 0 to |prefixes|
      invariant forall k | 0 <= k < i :: !Admits(prefixes[k], path)
    {
      if prefixes[i] == "*" {
        return true;
      }
      var p := "/" + prefixes[i];
      if p == path || p + "/" <= path {
        return true;
      }
    }
    return false;
  }

  /** Prefixes as the user should give them: the components of a directory, joined. */
  ghost predicate WellFormed(prefixes: seq<string>) {
    forall i | 0 <= i < |prefixes| :: prefixes[i] == "*" || (prefixes[i] != "" && GoodPath(Split(prefixes[i])))
  }

  /**
   The string test is the test on components: a path is allowed exactly if it is the root, the
   wildcard is listed, or some prefix's components begin it.
   */
  lemma AllowedIffComponentPrefix(prefixes: seq<string>, path: Path)
    requires WellFormed(prefixes) && GoodPath(path)
    ensures Allowed(prefixes, Render(path)) <==>
            path == [] || exists i :: 0 <= i < |prefixes| && (prefixes[i] == "*" || Split(prefixes[i]) <= path)
  {
    if path == [] {
      assert Render(path) == "/";
    } else {
      JoinNonEmpty(path);
      forall i | 0 <= i < |prefixes|
        ensures Admits(prefixes[i], Render(path)) <==> prefixes[i] == "*" || Split(prefixes[i]) <= path
      {
        if prefixes[i] != "*" {
          AdmitsIffComponentPrefix(prefixes[i], path);
        }
      }
    }
  }

  lemma AdmitsIffComponentPrefix(prefix: string, path: Path)
    requires prefix != "*" && prefix != "" && GoodPath(Split(prefix)) && GoodPath(path)
    ensures Admits(prefix, Render(path)) <==> Split(prefix) <= path
  {
    var above := Split(prefix);
    JoinSplit(prefix);
    assert Render(above) == "/" + prefix;
    RenderInjective(above, path);
    BelowIffStringPrefix(above, path);
    assert above <= path <==> above == path || above < path;
  }

  /** Below an allowed directory other than the root everything is allowed, so listing it filters nothing. */
  lemma AllowedClosedBelow(prefixes: seq<string>, path: Path, name: string)
    requires WellFormed(prefixes) && GoodPath(path) && GoodName(name)
    requires path != [] && Allowed(prefixes, Render(path))
    ensures Allowed(prefixes, Render(path + [name]))
  {
    var child := path + [name];
    assert GoodPath(child);
    AllowedIffComponentPrefix(prefixes, path);
    AllowedIffComponentPrefix(prefixes, child);
    var i :| 0 <= i < |prefixes| && (prefixes[i] == "*" || Split(prefixes[i]) <= path);
    assert prefixes[i] == "*" || Split(prefixes[i]) <= child;
  }

  /** The root is the exception: it is always allowed, its entries need not be. */
  lemma RootIsNotClosed(name: string)
    requires GoodName(name)
    ensures Allowed([], Render([])) && !Allowed([], Render([name]))
  {}
}
