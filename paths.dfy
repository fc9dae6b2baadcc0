/**
 * POSIX paths. A `Path` is the list of components of an absolute path, the
 * root being `[]`; `Render` gives its text ("/", "/a/b"). `AbsPath` is
 * `os.path.abspath` of an absolute path string: split on '/', drop empty and
 * "." components, let ".." remove the last component (".." at the root stays
 * at the root). `JoinPath` is `os.path.join` of two strings.
 */
module Paths {
  import opened Text

  type Path = seq<string>

  /** A component `abspath` can leave behind. */
  predicate IsName(c: string)
  {
    c != "" && c != "." && c != ".." && '/' !in c
  }

  /** No empty, "." or ".." component: what `abspath` returns. */
  predicate IsNormal(p: Path)
  {
    forall i :: 0 <= i < |p| ==> IsName(p[i])
  }

  /** `Path(p).parent`: the root is its own parent. */
  function Parent(p: Path): (q: Path)
    ensures p == [] ==> q == []
    ensures p != [] ==> q + [p[|p| - 1]] == p
  {
    if p == [] then [] else p[..|p| - 1]
  }

  /** The text of a path: "/" followed by the components joined with "/". */
  function Render(p: Path): string
  {
    "/" + Join(p, "/")
  }

  predicate IsAbsolute(s: string)
  {
    |s| > 0 && s[0] == '/'
  }

  /** One component of normalisation. */
  function Step(acc: Path, c: string): Path
  {
    if c == "" || c == "." then acc
    else if c == ".." then Parent(acc)
    else acc + [c]
  }

  /** Normalise the components `cs` starting from the directory `acc`. */
  function Fold(acc: Path, cs: seq<string>): Path
    decreases |cs|
  {
    if cs == [] then acc else Fold(Step(acc, cs[0]), cs[1..])
  }

  /** `os.path.abspath(s)` for an absolute path string `s`. */
  function AbsPath(s: string): Path
    requires IsAbsolute(s)
  {
    Fold([], Split(s, '/'))
  }

  /** `os.path.join(a, b)`. */
  function JoinPath(a: string, b: string): string
  {
    if IsAbsolute(b) then b
    else if a == "" || a[|a| - 1] == '/' then a + b
    else a + "/" + b
  }

  // ------------------------------------------------------------- lemmas

  lemma {:induction false} FoldAppend(acc: Path, xs: seq<string>, ys: seq<string>)
    ensures Fold(acc, xs + ys) == Fold(Fold(acc, xs), ys)
    decreases |xs|
  {
    if xs != [] {
      assert (xs + ys)[1..] == xs[1..] + ys;
      FoldAppend(Step(acc, xs[0]), xs[1..], ys);
    } else {
      assert xs + ys == ys;
    }
  }

  /** Normalisation keeps a normal path normal when no component holds '/'. */
  lemma {:induction false} FoldNormal(acc: Path, cs: seq<string>)
    requires IsNormal(acc)
    requires forall i :: 0 <= i < |cs| ==> '/' !in cs[i]
    ensures IsNormal(Fold(acc, cs))
    decreases |cs|
  {
    if cs != [] {
      FoldNormal(Step(acc, cs[0]), cs[1..]);
    }
  }

  /** Folding names that are already normal appends them. */
  lemma {:induction false} FoldNames(acc: Path, p: Path)
    requires IsNormal(p)
    ensures Fold(acc, p) == acc + p
    decreases |p|
  {
    if p != [] {
      FoldNames(acc + [p[0]], p[1..]);
      assert acc + [p[0]] + p[1..] == acc + p;
    }
  }

  lemma RenderIsAbsolute(p: Path)
    ensures IsAbsolute(Render(p))
  {
  }

  /** Every `abspath` result is normal: no empty, "." or ".." component. */
  lemma AbsPathIsNormal(s: string)
    requires IsAbsolute(s)
    ensures IsNormal(AbsPath(s))
  {
    SplitPartsLackSep(s, '/');
    FoldNormal([], Split(s, '/'));
  }

  /** Splitting the text of a path gives "" (for the root) and then its components. */
  lemma RenderSplits(p: Path)
    requires IsNormal(p)
    ensures Split(Render(p), '/') == [""] + (if p == [] then [""] else p)
  {
    SplitConcat("", Join(p, "/"), '/');
    assert "" + ['/'] + Join(p, "/") == Render(p);
    if p == [] {
    } else {
      SplitJoin(p, '/');
    }
  }

  /** `abspath` gives back the components of a normal path's text. */
  lemma {:induction false} AbsPathRender(p: Path)
    requires IsNormal(p)
    ensures AbsPath(Render(p)) == p
  {
    RenderSplits(p);
    if p == [] {
      assert Fold([], ["", ""]) == [];
    } else {
      assert Fold([], [""] + p) == Fold([], p);
      FoldNames([], p);
    }
  }

  /** `abspath` is idempotent on the text of its own results. */
  lemma AbsPathIdempotent(s: string)
    requires IsAbsolute(s)
    ensures AbsPath(Render(AbsPath(s))) == AbsPath(s)
  {
    AbsPathIsNormal(s);
    AbsPathRender(AbsPath(s));
  }

  /**
   * Joining a relative token onto a directory's text and normalising is the
   * same as normalising the token's components starting from the directory.
   */
  lemma {:induction false} AbsPathOfJoin(dir: Path, token: string)
    requires IsNormal(dir)
    requires !IsAbsolute(token)
    ensures IsAbsolute(JoinPath(Render(dir), token))
    ensures AbsPath(JoinPath(Render(dir), token)) == Fold(dir, Split(token, '/'))
  {
    var r := Render(dir);
    var joined := JoinPath(r, token);
    if dir == [] {
      assert r == "/";
      assert joined == "" + ['/'] + token;
      SplitConcat("", token, '/');
      assert Split(joined, '/') == [""] + Split(token, '/');
    } else {
      assert r[|r| - 1] != '/' by {
        var j := Join(dir, "/");
        JoinEndsWithName(dir);
        assert r[|r| - 1] == j[|j| - 1];
        var last := dir[|dir| - 1];
        assert IsName(last);
        assert last[|last| - 1] in last;
      }
      assert joined == r + ['/'] + token;
      SplitConcat(r, token, '/');
      RenderSplits(dir);
      var head := [""] + dir;
      assert Split(joined, '/') == head + Split(token, '/');
      FoldAppend([], head, Split(token, '/'));
      assert head[1..] == dir;
      assert Fold([], head) == Fold([], dir);
      FoldNames([], dir);
      assert Fold([], head) == dir;
    }
  }

  /** The text of a non-root normal path ends with its last name. */
  lemma {:induction false} JoinEndsWithName(p: Path)
    requires p != [] && IsNormal(p)
    ensures var j := Join(p, "/"); |j| > 0 && j[|j| - 1] == p[|p| - 1][|p[|p| - 1]| - 1]
  {
    if |p| > 1 {
      JoinEndsWithName(p[1..]);
      var j := Join(p, "/");
      assert j == p[0] + "/" + Join(p[1..], "/");
    }
  }

  /** `os.path.join` onto an absolute directory gives an absolute path. */
  lemma JoinKeepsAbsolute(a: string, b: string)
    requires IsAbsolute(a)
    ensures IsAbsolute(JoinPath(a, b))
  {
  }

  /** The path the system finds for `os.path.join(dir, token)`, with `.` and `..` taken lexically. */
  function Joined(dir: Path, token: string): (p: Path)
    ensures IsAbsolute(token) ==> p == AbsPath(token)
  {
    RenderIsAbsolute(dir);
    JoinKeepsAbsolute(Render(dir), token);
    AbsPath(JoinPath(Render(dir), token))
  }

  /** A relative token is read component by component starting from `dir`. */
  lemma JoinedRelative(dir: Path, token: string)
    requires IsNormal(dir) && !IsAbsolute(token)
    ensures Joined(dir, token) == Fold(dir, Split(token, '/'))
  {
    AbsPathOfJoin(dir, token);
  }

  /** A plain name below `dir` is found as that child of `dir`. */
  lemma JoinedName(dir: Path, name: string)
    requires IsNormal(dir) && IsName(name)
    ensures Joined(dir, name) == dir + [name]
  {
    AbsPathOfJoin(dir, name);
    SplitWithoutSep(name, '/');
  }

  /**
   * The system resolves `os.path.join(dir, token)` to a directory only: the
   * last component of the token is empty (a trailing `/`), `.` or `..`.
   */
  predicate DirOnly(token: string)
  {
    var parts := Split(token, '/');
    parts[|parts| - 1] in {"", ".", ".."}
  }

  /** A name with a `/` after it reaches the same child, but only as a directory. */
  lemma SlashedName(dir: Path, name: string)
    requires IsNormal(dir) && IsName(name)
    ensures Joined(dir, name + "/") == dir + [name]
    ensures DirOnly(name + "/") && !DirOnly(name)
  {
    assert name[0] in name;
    assert name + "/" == name + ['/'] + "";
    SplitConcat(name, "", '/');
    SplitWithoutSep(name, '/');
    assert Split(name + "/", '/') == [name, ""];
    JoinedRelative(dir, name + "/");
    assert Fold(dir, [name, ""]) == Fold(dir + [name], [""]) == dir + [name];
  }

  /** Two slash-free names around one `/` split back into those two names. */
  lemma SplitTwo(a: string, b: string)
    requires '/' !in a && '/' !in b
    ensures Split(a + "/" + b, '/') == [a, b]
  {
    assert a + "/" + b == a + ['/'] + b;
    SplitConcat(a, b, '/');
    SplitWithoutSep(a, '/');
    SplitWithoutSep(b, '/');
  }

  /** `<name>/` followed by `.zip` joins to a child of the folder `name` itself. */
  lemma SlashedArchive(dir: Path, name: string)
    requires IsNormal(dir) && IsName(name)
    ensures Joined(dir, name + "/" + ".zip") == Joined(dir, name + "/") + [".zip"]
    ensures Joined(dir, name + "/" + ".zip") == dir + [name, ".zip"]
  {
    SlashedName(dir, name);
    var token := name + "/" + ".zip";
    assert token[0] == name[0] && name[0] in name;
    SplitTwo(name, ".zip");
    JoinedRelative(dir, token);
    assert Fold(dir, [name, ".zip"]) == Fold(dir + [name], [".zip"]) == dir + [name, ".zip"];
  }
}
