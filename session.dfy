/**
 * The navigation commands of one bot session as transitions on its state:
 * `/cd`, `/up`, `/bookmark` and `/pwd`. Each function takes the current
 * directory (and the bookmarks) and gives the reply together with what the
 * state becomes; the class in module `Bot` applies them to its fields.
 */
module Session {
  import opened Text
  import opened Paths
  import opened FileTree
  import opened Traversal

  // -------------------------------------------------------------------- /cd

  /** The directory `/cd <path>` aims at: `..`, `~` / `$HOME`, an absolute path, or one relative to `cur`, always through `abspath`. */
  function Resolve(cur: Path, home: Path, path: string): (p: Path)
    requires IsNormal(cur) && IsNormal(home)
    ensures IsNormal(p)
    ensures path == ".." ==> p == Parent(cur)
    ensures path != ".." && (path == "~" || path == "$HOME") ==> p == home
    ensures path != ".." && path != "~" && path != "$HOME" && !IsAbsolute(path) ==> p == Fold(cur, Split(path, '/'))
  {
    if path == ".." then
      assert IsNormal(Parent(cur));
      AbsPathRender(Parent(cur));
      AbsPath(Render(Parent(cur)))
    else if path == "~" || path == "$HOME" then
      AbsPathRender(home);
      AbsPath(Render(home))
    else if IsAbsolute(path) then
      AbsPathIsNormal(path);
      AbsPath(path)
    else
      AbsPathOfJoin(cur, path);
      AbsPathIsNormal(JoinPath(Render(cur), path));
      Joined(cur, path)
  }

  /** An absolute token is normalised on its own, whatever the current directory. */
  lemma ResolveAbsolute(cur: Path, other: Path, home: Path, path: string)
    requires IsNormal(cur) && IsNormal(other) && IsNormal(home)
    requires IsAbsolute(path)
    ensures Resolve(cur, home, path) == Resolve(other, home, path) == AbsPath(path)
  {
  }

  /** A plain name is the child of that name of the current directory. */
  lemma ResolveName(cur: Path, home: Path, name: string)
    requires IsNormal(cur) && IsNormal(home) && IsName(name) && name != "~" && name != "$HOME"
    ensures Resolve(cur, home, name) == cur + [name]
  {
    assert !IsAbsolute(name);
    JoinedName(cur, name);
  }

  datatype CdReply =
    | CdUsage
    | CdMissing
    | CdNotDir
    | CdNoPermission
    | CdChanged(path: Path, dirs: nat, files: nat)

  /** `/cd <path...>`: the directory changes only to an existing, listable directory; the reply counts its subdirectories and other entries. */
  function Cd(fs: Node, cur: Path, home: Path, args: seq<string>): (r: CdReply)
    requires IsNormal(cur) && IsNormal(home)
    ensures args == [] <==> r == CdUsage
    ensures r == CdMissing ==> !Exists(fs, Resolve(cur, home, Join(args, " ")))
    ensures r == CdNotDir ==> Exists(fs, Resolve(cur, home, Join(args, " "))) && !IsDirAt(fs, Resolve(cur, home, Join(args, " ")))
    ensures r == CdNoPermission ==> IsDirAt(fs, Resolve(cur, home, Join(args, " "))) && !IsListableAt(fs, Resolve(cur, home, Join(args, " ")))
    ensures args != [] && IsListableAt(fs, Resolve(cur, home, Join(args, " "))) ==>
      r.CdChanged? && r.path == Resolve(cur, home, Join(args, " "))
    ensures r.CdChanged? ==> IsNormal(r.path) && IsListableAt(fs, r.path)
    ensures r.CdChanged? ==>
      var es := Lookup(fs, r.path).value.entries;
      r.dirs == |DirsOf(es)| && r.files == |FilesOf(es)|
  {
    if args == [] then CdUsage
    else
      var p := Resolve(cur, home, Join(args, " "));
      if !Exists(fs, p) then CdMissing
      else if !IsDirAt(fs, p) then CdNotDir
      else if !IsReadableAt(fs, p) then CdNoPermission
      else
        var es := Lookup(fs, p).value.entries;
        PartitionSizes(es);
        CdChanged(p, |DirsOf(es)|, |es| - |DirsOf(es)|)
  }

  /** The directory after `/cd`: the new one on success, the old one on every failure. */
  function AfterCd(r: CdReply, cur: Path): (next: Path)
    ensures next != cur ==> r.CdChanged?
  {
    if r.CdChanged? then r.path else cur
  }

  // -------------------------------------------------------------------- /up

  datatype UpReply = UpMoved(path: Path) | UpRefused

  /** `/up`: to the parent when it exists and is readable. */
  function Up(fs: Node, cur: Path): (r: UpReply)
    ensures r.UpMoved? <==> Exists(fs, Parent(cur)) && IsReadableAt(fs, Parent(cur))
    ensures r.UpMoved? ==> r.path <= cur && (cur != [] ==> |r.path| + 1 == |cur|)
    ensures r.UpMoved? && cur == [] ==> r.path == []
  {
    var parent := Parent(cur);
    if Exists(fs, parent) && IsReadableAt(fs, parent) then UpMoved(parent) else UpRefused
  }

  function AfterUp(r: UpReply, cur: Path): (next: Path)
    ensures next != cur ==> r.UpMoved?
  {
    if r.UpMoved? then r.path else cur
  }

  /** The parent of anything that exists is a directory. */
  lemma ParentIsDir(fs: Node, cur: Path)
    requires Exists(fs, cur) && cur != []
    ensures IsDirAt(fs, Parent(cur))
  {
    var q := Parent(cur);
    var last := [cur[|cur| - 1]];
    LookupAppend(fs, q, last);
    assert q + last == cur;
  }

  /** From a directory that still exists, `/up` only ever lands in a listable directory. */
  lemma UpLandsListable(fs: Node, cur: Path)
    requires IsDirAt(fs, cur)
    ensures Up(fs, cur).UpMoved? ==> IsListableAt(fs, Up(fs, cur).path)
  {
    if cur != [] {
      ParentIsDir(fs, cur);
    }
  }

  /** At the root `/up` reports success and stays at the root. */
  lemma UpAtRoot(fs: Node)
    requires fs.readable
    ensures Up(fs, []) == UpMoved([])
  {
  }

  /** Where `/cd ..` succeeds, `/up` goes to the same directory. */
  lemma UpAgreesWithCdParent(fs: Node, cur: Path, home: Path)
    requires IsNormal(cur) && IsNormal(home)
    ensures Cd(fs, cur, home, [".."]).CdChanged? ==> Up(fs, cur) == UpMoved(Cd(fs, cur, home, [".."]).path)
  {
    assert Join([".."], " ") == "..";
  }

  // -------------------------------------------------------------- /bookmark

  datatype BmReply =
    | BmUsage
    | BmNeedName
    | BmAdded(name: string)
    | BmEmpty
    | BmListed(marks: map<string, Path>)
    | BmNeedWhich
    | BmNotFound
    | BmMoved(path: Path)
    | BmGone
    | BmRemoved(name: string)
    | BmBadAction

  datatype BmResult = BmResult(reply: BmReply, cur: Path, marks: map<string, Path>)

  const Add := "add"
  const List := "list"
  const Go := "go"
  const Del := "del"

  /** `/bookmark <action> [name]`, the action compared in lower case. */
  function Bookmark(fs: Node, cur: Path, marks: map<string, Path>, args: seq<string>): (r: BmResult)
    ensures args == [] ==> r == BmResult(BmUsage, cur, marks)
    ensures r.cur != cur ==> r.reply.BmMoved?
    ensures r.reply.BmMoved? ==>
      |args| >= 2 && Lower(args[0]) == Go && args[1] in marks &&
      r.cur == marks[args[1]] && Exists(fs, r.cur) && r.marks == marks
    ensures r.marks != marks ==> |args| >= 2 && (Lower(args[0]) == Add || Lower(args[0]) == Del)
    ensures |args| >= 2 && Lower(args[0]) == Add ==> r == BmResult(BmAdded(args[1]), cur, marks[args[1] := cur])
    ensures |args| >= 2 && Lower(args[0]) == Del ==>
      r.cur == cur && r.marks == marks - {args[1]} &&
      r.reply == (if args[1] in marks then BmRemoved(args[1]) else BmNotFound)
    ensures |args| >= 2 && Lower(args[0]) == Go && args[1] in marks && Exists(fs, marks[args[1]]) ==>
      r.reply == BmMoved(marks[args[1]])
    ensures args != [] && Lower(args[0]) == List ==>
      r.cur == cur && r.marks == marks && r.reply == (if marks == map[] then BmEmpty else BmListed(marks))
  {
    if args == [] then BmResult(BmUsage, cur, marks)
    else
      var action := Lower(args[0]);
      if action == Add then
        if |args| < 2 then BmResult(BmNeedName, cur, marks)
        else BmResult(BmAdded(args[1]), cur, marks[args[1] := cur])
      else if action == List then
        if marks == map[] then BmResult(BmEmpty, cur, marks) else BmResult(BmListed(marks), cur, marks)
      else if action == Go then
        if |args| < 2 then BmResult(BmNeedWhich, cur, marks)
        else if args[1] !in marks then BmResult(BmNotFound, cur, marks)
        else if Exists(fs, marks[args[1]]) then BmResult(BmMoved(marks[args[1]]), marks[args[1]], marks)
        else BmResult(BmGone, cur, marks)
      else if action == Del then
        if |args| < 2 then BmResult(BmNeedWhich, cur, marks)
        else if args[1] in marks then BmResult(BmRemoved(args[1]), cur, marks - {args[1]})
        else BmResult(BmNotFound, cur, marks)
      else BmResult(BmBadAction, cur, marks)
  }

  predicate AllNormal(marks: map<string, Path>)
  {
    forall k :: k in marks ==> IsNormal(marks[k])
  }

  /** The bookmarks and the directory stay normal paths. */
  lemma BookmarkKeepsNormal(fs: Node, cur: Path, marks: map<string, Path>, args: seq<string>)
    requires IsNormal(cur) && AllNormal(marks)
    ensures IsNormal(Bookmark(fs, cur, marks, args).cur)
    ensures AllNormal(Bookmark(fs, cur, marks, args).marks)
  {
  }

  /** `add` then `go` with the same name comes back to the directory that was current at `add`. */
  lemma AddThenGo(fs: Node, cur: Path, elsewhere: Path, marks: map<string, Path>, name: string)
    requires Exists(fs, cur)
    ensures var added := Bookmark(fs, cur, marks, [Add, name]);
      Bookmark(fs, elsewhere, added.marks, [Go, name]) == BmResult(BmMoved(cur), cur, added.marks)
  {
    assert Lower(Add) == Add;
    assert Lower(Go) == Go;
  }

  /** `del` removes exactly one name: every other bookmark keeps its path. */
  lemma DelKeepsOthers(fs: Node, cur: Path, marks: map<string, Path>, name: string, other: string)
    requires other != name && other in marks
    ensures var r := Bookmark(fs, cur, marks, [Del, name]);
      other in r.marks && r.marks[other] == marks[other] && name !in r.marks
  {
    assert Lower(Del) == Del;
  }

  // ------------------------------------------------------------------- /pwd

  datatype PwdReply = PwdReply(abs: string, base: string, parent: string)

  /** `/pwd`: the path, `os.path.basename` of it (empty at the root) and `os.path.dirname` of it. */
  function Pwd(cur: Path): (r: PwdReply)
    ensures cur == [] ==> r == PwdReply("/", "", "/")
    ensures IsAbsolute(r.abs) && IsAbsolute(r.parent)
    ensures IsNormal(cur) ==> AbsPath(r.abs) == cur && AbsPath(r.parent) == Parent(cur)
    ensures cur != [] ==> r.base == cur[|cur| - 1]
  {
    RenderIsAbsolute(cur);
    RenderIsAbsolute(Parent(cur));
    var r := PwdReply(Render(cur), if cur == [] then "" else cur[|cur| - 1], Render(Parent(cur)));
    if IsNormal(cur) then
      assert IsNormal(Parent(cur));
      AbsPathRender(cur);
      AbsPathRender(Parent(cur));
      r
    else r
  }

  lemma {:induction false} JoinSnoc(p: seq<string>, x: string, sep: string)
    requires p != []
    ensures Join(p + [x], sep) == Join(p, sep) + sep + x
  {
    if |p| > 1 {
      assert (p + [x])[1..] == p[1..] + [x];
      JoinSnoc(p[1..], x, sep);
    }
  }

  /** `os.path.join` of a directory's text and a name gives the text of the child. */
  lemma RenderSnoc(q: Path, x: string)
    requires IsNormal(q) && IsName(x)
    ensures JoinPath(Render(q), x) == Render(q + [x])
  {
    assert x[0] in x;
    assert !IsAbsolute(x);
    var parent := Render(q);
    if q == [] {
      assert parent == "/";
      assert q + [x] == [x];
    } else {
      JoinEndsWithName(q);
      JoinSnoc(q, x, "/");
      var last := q[|q| - 1];
      assert last[|last| - 1] != '/' by {
        assert IsName(last) && last[|last| - 1] in last;
      }
      assert parent[|parent| - 1] != '/';
      assert Render(q + [x]) == parent + "/" + x;
    }
  }

  /** Below the root, joining the parent and the base name gives the path back. */
  lemma PwdJoins(cur: Path)
    requires IsNormal(cur) && cur != []
    ensures JoinPath(Pwd(cur).parent, Pwd(cur).base) == Pwd(cur).abs
  {
    var q := Parent(cur);
    var x := cur[|cur| - 1];
    var r := Pwd(cur);
    assert r.parent == Render(q) && r.base == x && r.abs == Render(cur);
    assert IsNormal(q) by {
      forall i | 0 <= i < |q| ensures IsName(q[i]) {
        assert q[i] == cur[i];
      }
    }
    assert cur == q + [x];
    RenderSnoc(q, x);
  }
}
