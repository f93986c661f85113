/** Slash-separated names and their components. */
module Paths {

  type Path = seq<string>

  /** strings.Split(s, "/"). */
  function Split(s: string): (parts: seq<string>)
    ensures parts != []
  {
    if s == "" then [""]
    else if s[0] == '/' then [""] + Split(s[1..])
    else
      var rest := Split(s[1..]);
      rest[0 := [s[0]] + rest[0]]
  }

  function Join(parts: seq<string>): string {
    if parts == [] then ""
    else if |parts| == 1 then parts[0]
    else parts[0] + "/" + Join(parts[1..])
  }

  predicate SlashFree(name: string) {
    '/' !in name
  }

  lemma {:induction false} JoinSplit(s: string)
    ensures Join(Split(s)) == s
  {
    if s != "" {
      JoinSplit(s[1..]);
      JoinLonger(s[0], Split(s[1..]));
      assert s == [s[0]] + s[1..];
    }
  }

  /** A first character more, in the first part or, if it is a slash, before it. */
  lemma JoinLonger(c: char, rest: seq<string>)
    requires rest != []
    ensures Join([""] + rest) == "/" + Join(rest)
    ensures Join(rest[0 := [c] + rest[0]]) == [c] + Join(rest)
  {
    assert ([""] + rest)[1..] == rest;
    assert rest[0 := [c] + rest[0]][1..] == rest[1..];
  }

  lemma {:induction false} PartsSlashFree(s: string, k: nat)
    requires k < |Split(s)|
    ensures SlashFree(Split(s)[k])
  {
    if s != "" {
      if s[0] == '/' {
        if k > 0 { PartsSlashFree(s[1..], k - 1); }
      } else {
        PartsSlashFree(s[1..], k);
      }
    }
  }

  lemma {:induction false} SplitOne(name: string)
    requires SlashFree(name)
    ensures Split(name) == [name]
  {
    if name != "" {
      assert name[0] in name && name == [name[0]] + name[1..];
      SplitOne(name[1..]);
    }
  }

  lemma {:induction false} SplitFirst(name: string, rest: string)
    requires SlashFree(name)
    ensures Split(name + "/" + rest) == [name] + Split(rest)
  {
    var s := name + "/" + rest;
    if name == "" {
      assert s[1..] == rest;
    } else {
      assert name[0] in name && name == [name[0]] + name[1..];
      SplitFirst(name[1..], rest);
      assert s[0] == name[0] && s[1..] == name[1..] + "/" + rest;
      var parts := [name[1..]] + Split(rest);
      assert parts[0] == name[1..] && parts[1..] == Split(rest);
    }
  }

  lemma {:induction false} SplitJoin(parts: seq<string>)
    requires parts != [] && forall part | part in parts :: SlashFree(part)
    ensures Split(Join(parts)) == parts
  {
    if |parts| == 1 {
      SplitOne(parts[0]);
    } else {
      SplitJoin(parts[1..]);
      SplitFirst(parts[0], Join(parts[1..]));
    }
  }

  // ---------------------------------------------------------------- absolute paths

  /** A directory entry's name. "." and ".." never reach the file system. */
  predicate GoodName(name: string) {
    name != "" && SlashFree(name) && name != "." && name != ".."
  }

  predicate GoodPath(p: Path) {
    forall name | name in p :: GoodName(name)
  }

  function Render(p: Path): string {
    "/" + Join(p)
  }

  /** The components of an absolute path. */
  function Components(s: string): Path {
    if |s| <= 1 then [] else Split(s[1..])
  }

  /** path.Join(dir, name), which for such names only has to put the slash. */
  function PathJoin(dir: string, name: string): string {
    if dir == "/" then dir + name else dir + "/" + name
  }

  lemma {:induction false} JoinMore(p: Path, name: string)
    ensures Join(p + [name]) == if p == [] then name else Join(p) + "/" + name
  {
    if p == [] {
      assert p + [name] == [name];
    } else {
      JoinMore(p[1..], name);
      assert (p + [name])[1..] == p[1..] + [name];
    }
  }

  lemma JoinNonEmpty(p: Path)
    requires GoodPath(p) && p != []
    ensures Join(p) != ""
  {
    assert p[0] in p;
  }

  lemma RenderChild(p: Path, name: string)
    requires GoodPath(p)
    ensures Render(p + [name]) == PathJoin(Render(p), name)
  {
    JoinMore(p, name);
    if p != [] {
      JoinNonEmpty(p);
    }
  }

  /** The rendering loses nothing. */
  lemma ComponentsRender(p: Path)
    requires GoodPath(p)
    ensures Components(Render(p)) == p
  {
    if p != [] {
      JoinNonEmpty(p);
      SplitJoin(p);
      assert Render(p)[1..] == Join(p);
    }
  }

  lemma SlashAssociates(a: string, b: string, c: string)
    ensures (a + "/" + b) + "/" + c == a + "/" + (b + "/" + c)
  {}

  lemma CancelSlash(a: string, b: string, c: string)
    requires "/" + a == ("/" + b) + "/" + c
    ensures a == b + "/" + c
  {
    assert ("/" + a)[1..] == a;
    assert (("/" + b) + "/" + c)[1..] == b + "/" + c;
  }

  lemma JoinFirst(p: Path)
    requires |p| > 1
    ensures Join(p) == p[0] + "/" + Join(p[1..])
  {}

  lemma {:induction false} SplitAppend(p: Path, rest: string)
    requires p != [] && forall name | name in p :: SlashFree(name)
    ensures Split(Join(p) + "/" + rest) == p + Split(rest)
  {
    if |p| == 1 {
      SplitFirst(p[0], rest);
      assert p == [p[0]];
    } else {
      var tail := Join(p[1..]);
      SplitAppend(p[1..], rest);
      SplitFirst(p[0], tail + "/" + rest);
      JoinFirst(p);
      SlashAssociates(p[0], tail, rest);
      assert [p[0]] + (p[1..] + Split(rest)) == p + Split(rest);
    }
  }

  lemma {:induction false} JoinAppend(p: Path, q: Path)
    requires p != [] && q != []
    ensures Join(p + q) == Join(p) + "/" + Join(q)
  {
    if |p| == 1 {
      assert p + q == [p[0]] + q && (p + q)[1..] == q;
    } else {
      JoinAppend(p[1..], q);
      assert (p + q)[1..] == p[1..] + q;
    }
  }

  /** A rendered path continues another one's string after a slash exactly if it lies below it. */
  lemma BelowIffStringPrefix(p: Path, q: Path)
    requires GoodPath(p) && GoodPath(q) && p != []
    ensures Render(p) + "/" <= Render(q) <==> p < q
  {
    if p < q {
      JoinAppend(p, q[|p|..]);
      assert q == p + q[|p|..];
      assert Render(q) == Render(p) + "/" + Join(q[|p|..]);
    }
    if Render(p) + "/" <= Render(q) {
      var rest := Render(q)[|Render(p)| + 1..];
      assert Render(q) == Render(p) + "/" + rest;
      CancelSlash(Join(q), Join(p), rest);
      assert q != [];
      SplitAppend(p, rest);
      SplitJoin(q);
      assert q == p + Split(rest);
    }
  }

  lemma RenderInjective(p: Path, q: Path)
    requires GoodPath(p) && GoodPath(q)
    ensures Render(p) == Render(q) <==> p == q
  {
    ComponentsRender(p);
    ComponentsRender(q);
  }
}
