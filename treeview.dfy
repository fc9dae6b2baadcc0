/**
 * `/tree [depth]`: the header line with the current directory, then the
 * recursive `add_tree`. At each level the children are `sorted(path.glob("*"))`
 * (by name, case-sensitive; nothing for an unreadable directory or a
 * non-directory); each child's line is its prefix, "└── " for the last child
 * and "├── " for the others, an icon and its name; a directory child is then
 * expanded one level deeper with the prefix extended by "    " after the last
 * child and by "│   " otherwise. Nothing deeper than the depth limit appears.
 */
module TreeView {
  import opened Maybe
  import opened Text
  import opened Numbers
  import opened Paths
  import opened FileTree
  import Sorting
  import Messages

  const Elbow := "└── "
  const Tee := "├── "
  const Blank := "    "
  const Pipe := "│   "
  const DirIcon := "\U{1F4C1} "
  const FileIcon := "\U{1F4C4} "
  const HeaderIcon := "\U{1F4C2} "
  const DefaultDepth := 3

  /** One line of the tree before it is rendered. */
  datatype Row = Row(prefix: string, isLast: bool, isDir: bool, name: string, depth: int)

  function RenderRow(r: Row): string
  {
    r.prefix + (if r.isLast then Elbow else Tee) + (if r.isDir then DirIcon else FileIcon) + r.name
  }

  /** The prefix a directory child hands to its own children. */
  function Extension(isLast: bool): string
  {
    if isLast then Blank else Pipe
  }

  /** `Path` objects of one directory compare by name. */
  function NameLe(a: Entry, b: Entry): bool
  {
    LexLe(a.name, b.name)
  }

  /** What `path.glob("*")` yields: the entries of a readable directory, else nothing. */
  function Globbed(n: Node): (es: seq<Entry>)
    ensures Within(n, es)
  {
    if n.Dir? && n.readable then n.entries else []
  }

  function Children(n: Node): (kids: seq<Entry>)
    ensures Within(n, kids)
  {
    var kids := Sorting.Sort(Globbed(n), NameLe);
    assert forall e :: e in kids ==> e in Globbed(n) by {
      forall e | e in kids ensures e in Globbed(n) {
        Sorting.SortMembers(Globbed(n), NameLe, e);
      }
    }
    kids
  }

  /** The rows `add_tree(n, prefix, depth)` appends. */
  function Rows(n: Node, prefix: string, depth: int, maxDepth: int): seq<Row>
    decreases n, 1
  {
    if depth > maxDepth then []
    else
      var kids := Children(n);
      RowsUpTo(n, kids, |kids|, prefix, depth, maxDepth)
  }

  /** The rows the loop of `add_tree` has appended after `i` of the children. */
  function RowsUpTo(n: Node, kids: seq<Entry>, i: nat, prefix: string, depth: int, maxDepth: int): seq<Row>
    requires i <= |kids|
    requires Within(n, kids)
    decreases n, 0, i
  {
    if i == 0 then []
    else
      var e := kids[i - 1];
      var isLast := i - 1 == |kids| - 1;
      assert e in kids;
      assert e in n.entries;
      RowsUpTo(n, kids, i - 1, prefix, depth, maxDepth) +
      [Row(prefix, isLast, e.node.Dir?, e.name, depth)] +
      (if e.node.Dir? then Rows(e.node, prefix + Extension(isLast), depth + 1, maxDepth) else [])
  }

  function RenderAll(rows: seq<Row>): seq<string>
  {
    Sorting.Image(RenderRow, rows)
  }

  /** `add_tree`, appending the rendered rows to `acc` (the enclosing `result` list). */
  method AddTree(n: Node, prefix: string, depth: int, maxDepth: int, acc: seq<string>) returns (result: seq<string>)
    ensures result == acc + RenderAll(Rows(n, prefix, depth, maxDepth))
    decreases n, 1
  {
    if depth > maxDepth {
      return acc;
    }
    var kids := Children(n);
    result := acc;
    for i := 0 to |kids|
      invariant result == acc + RenderAll(RowsUpTo(n, kids, i, prefix, depth, maxDepth))
    {
      result := AddChild(n, kids, i, prefix, depth, maxDepth, acc, result);
    }
  }

  /** One turn of `add_tree`'s loop: the line for `kids[i]`, then its subtree. */
  method AddChild(n: Node, kids: seq<Entry>, i: nat, prefix: string, depth: int, maxDepth: int,
                  ghost acc: seq<string>, sofar: seq<string>) returns (result: seq<string>)
    requires i < |kids|
    requires Within(n, kids)
    requires sofar == acc + RenderAll(RowsUpTo(n, kids, i, prefix, depth, maxDepth))
    ensures result == acc + RenderAll(RowsUpTo(n, kids, i + 1, prefix, depth, maxDepth))
    decreases n, 0
  {
    var p := kids[i];
    var isLast := i == |kids| - 1;
    var row := Row(prefix, isLast, p.node.Dir?, p.name, depth);
    ghost var before := RowsUpTo(n, kids, i, prefix, depth, maxDepth);
    ghost var sub := if p.node.Dir? then Rows(p.node, prefix + Extension(isLast), depth + 1, maxDepth) else [];
    RowsUpToStep(n, kids, i, i + 1, prefix, depth, maxDepth);
    RenderAround(acc, before, row, sub);
    result := sofar + [RenderRow(row)];
    if p.node.Dir? {
      assert p in kids;
      result := AddTree(p.node, prefix + Extension(isLast), depth + 1, maxDepth, result);
    } else {
      assert result == sofar + [RenderRow(row)] + RenderAll(sub);
    }
  }

  lemma RenderAround(acc: seq<string>, before: seq<Row>, row: Row, sub: seq<Row>)
    ensures acc + RenderAll(before + [row] + sub) == acc + RenderAll(before) + [RenderRow(row)] + RenderAll(sub)
  {
    Sorting.ImageAppend(RenderRow, before + [row], sub);
    Sorting.ImageAppend(RenderRow, before, [row]);
    assert RenderAll([row]) == [RenderRow(row)] + RenderAll([]);
  }

  /** One more child adds its line and, for a directory, its subtree. */
  lemma RowsUpToStep(n: Node, kids: seq<Entry>, i: nat, j: nat, prefix: string, depth: int, maxDepth: int)
    requires j == i + 1 <= |kids|
    requires Within(n, kids)
    ensures var isLast := i == |kids| - 1;
      RowsUpTo(n, kids, j, prefix, depth, maxDepth) ==
      RowsUpTo(n, kids, i, prefix, depth, maxDepth) + [Row(prefix, isLast, kids[i].node.Dir?, kids[i].name, depth)] +
      (if kids[i].node.Dir? then Rows(kids[i].node, prefix + Extension(isLast), depth + 1, maxDepth) else [])
  {
  }

  /** The depth argument: 3 when absent, `int(args[0])` otherwise (`None` when that raises). */
  function DepthArgument(args: seq<string>): Option<int>
  {
    if args == [] then Some(DefaultDepth) else ParseInt(args[0])
  }

  /** The rows under the current directory; `Path(current_dir).glob` yields nothing when it has vanished. */
  function TreeRows(fs: Node, cur: Path, maxDepth: int): seq<Row>
  {
    match Lookup(fs, cur)
    case None => []
    case Some(n) => Rows(n, "", 1, maxDepth)
  }

  function Header(cur: Path): string
  {
    HeaderIcon + Render(cur)
  }

  /** The lines of `result` after `add_tree(Path(self.current_dir))`. */
  function TreeLines(fs: Node, cur: Path, maxDepth: int): (lines: seq<string>)
    ensures |lines| >= 1 && lines[0] == Header(cur)
  {
    [Header(cur)] + RenderAll(TreeRows(fs, cur, maxDepth))
  }

  datatype TreeReply = TreeBadDepth | TreeSent(chunks: seq<string>)

  /** The `/tree` handler up to the messages it sends. */
  method Tree(fs: Node, cur: Path, args: seq<string>) returns (r: TreeReply)
    ensures DepthArgument(args).None? <==> r == TreeBadDepth
    ensures DepthArgument(args).Some? ==>
      r == TreeSent(Messages.Replies(Join(TreeLines(fs, cur, DepthArgument(args).value), "\n")))
  {
    var maxDepth := DefaultDepth;
    if args != [] {
      var parsed := ParseInt(args[0]);
      if parsed.None? {
        return TreeBadDepth;
      }
      maxDepth := parsed.value;
    }
    var result := [Header(cur)];
    var node := Lookup(fs, cur);
    if node.Some? {
      result := AddTree(node.value, "", 1, maxDepth, result);
    } else {
      assert RenderAll([]) == [];
    }
    var sent := Messages.SendChunks(Join(result, "\n"));
    return TreeSent(sent);
  }

  /** What every row below a call `add_tree(_, prefix, depth)` looks like. */
  predicate Shaped(r: Row, prefix: string, depth: int, maxDepth: int)
  {
    depth <= r.depth <= maxDepth &&
    prefix <= r.prefix &&
    |r.prefix| == |prefix| + 4 * (r.depth - depth)
  }

  /** Rows stay within the depth limit, and each level below adds one four-character segment to the prefix. */
  lemma {:induction false} RowsShaped(n: Node, prefix: string, depth: int, maxDepth: int)
    ensures forall r :: r in Rows(n, prefix, depth, maxDepth) ==> Shaped(r, prefix, depth, maxDepth)
    decreases n, 1
  {
    if depth <= maxDepth {
      var kids := Children(n);
      RowsUpToShaped(n, kids, |kids|, prefix, depth, maxDepth);
    }
  }

  lemma {:induction false} RowsUpToShaped(n: Node, kids: seq<Entry>, i: nat, prefix: string, depth: int, maxDepth: int)
    requires i <= |kids|
    requires Within(n, kids)
    requires depth <= maxDepth
    ensures forall r :: r in RowsUpTo(n, kids, i, prefix, depth, maxDepth) ==> Shaped(r, prefix, depth, maxDepth)
    decreases n, 0, i
  {
    if i > 0 {
      RowsUpToShaped(n, kids, i - 1, prefix, depth, maxDepth);
      var e := kids[i - 1];
      var isLast := i - 1 == |kids| - 1;
      if e.node.Dir? {
        assert e in kids;
        assert e in n.entries;
        var ext := prefix + Extension(isLast);
        RowsShaped(e.node, ext, depth + 1, maxDepth);
        forall r | r in Rows(e.node, ext, depth + 1, maxDepth) ensures Shaped(r, prefix, depth, maxDepth) {
          assert Shaped(r, ext, depth + 1, maxDepth);
          assert prefix <= ext;
        }
      }
    }
  }

  /** Nothing is emitted below the depth limit: with `max_depth <= 0` only the header is left. */
  lemma OnlyHeader(fs: Node, cur: Path, maxDepth: int)
    requires maxDepth <= 0
    ensures TreeLines(fs, cur, maxDepth) == [Header(cur)]
  {
    assert TreeRows(fs, cur, maxDepth) == [];
  }

  /** Every emitted row is at depth 1 to `max_depth`, with a prefix of four characters per level above it. */
  lemma TreeRowsShaped(fs: Node, cur: Path, maxDepth: int)
    ensures forall r :: r in TreeRows(fs, cur, maxDepth) ==>
      1 <= r.depth <= maxDepth && |r.prefix| == 4 * (r.depth - 1)
  {
    match Lookup(fs, cur)
    case None =>
    case Some(n) => RowsShaped(n, "", 1, maxDepth);
  }

  /** The rows at depth `d`, in order. */
  function AtDepth(rows: seq<Row>, d: int): seq<Row>
  {
    if rows == [] then []
    else AtDepth(rows[..|rows| - 1], d) + (if rows[|rows| - 1].depth == d then [rows[|rows| - 1]] else [])
  }

  lemma {:induction false} AtDepthAppend(a: seq<Row>, b: seq<Row>, d: int)
    ensures AtDepth(a + b, d) == AtDepth(a, d) + AtDepth(b, d)
    decreases |b|
  {
    if b == [] {
      assert a + b == a;
    } else {
      assert (a + b)[..|a + b| - 1] == a + b[..|b| - 1];
      AtDepthAppend(a, b[..|b| - 1], d);
    }
  }

  lemma {:induction false} AtDepthNone(rows: seq<Row>, d: int)
    requires forall r :: r in rows ==> r.depth > d
    ensures AtDepth(rows, d) == []
    decreases |rows|
  {
    if rows != [] {
      assert rows[|rows| - 1] in rows;
      AtDepthNone(rows[..|rows| - 1], d);
    }
  }

  /** The line `add_tree` appends for the `j`-th of the sorted children. */
  function ChildRow(kids: seq<Entry>, j: nat, prefix: string, depth: int): Row
    requires j < |kids|
  {
    Row(prefix, j == |kids| - 1, kids[j].node.Dir?, kids[j].name, depth)
  }

  /** The lines for the first `i` children, without their subtrees. */
  function ChildRows(kids: seq<Entry>, i: nat, prefix: string, depth: int): (rows: seq<Row>)
    requires i <= |kids|
    ensures |rows| == i
    ensures forall j :: 0 <= j < i ==> rows[j] == ChildRow(kids, j, prefix, depth)
  {
    if i == 0 then [] else ChildRows(kids, i - 1, prefix, depth) + [ChildRow(kids, i - 1, prefix, depth)]
  }

  lemma {:induction false} RowsUpToTop(n: Node, kids: seq<Entry>, i: nat, prefix: string, depth: int, maxDepth: int)
    requires i <= |kids|
    requires Within(n, kids)
    requires depth <= maxDepth
    ensures AtDepth(RowsUpTo(n, kids, i, prefix, depth, maxDepth), depth) == ChildRows(kids, i, prefix, depth)
    decreases i
  {
    if i > 0 {
      RowsUpToTop(n, kids, i - 1, prefix, depth, maxDepth);
      RowsUpToTopStep(n, kids, i, prefix, depth, maxDepth);
    }
  }

  lemma RowsUpToTopStep(n: Node, kids: seq<Entry>, i: nat, prefix: string, depth: int, maxDepth: int)
    requires 0 < i <= |kids|
    requires Within(n, kids)
    requires depth <= maxDepth
    requires AtDepth(RowsUpTo(n, kids, i - 1, prefix, depth, maxDepth), depth) == ChildRows(kids, i - 1, prefix, depth)
    ensures AtDepth(RowsUpTo(n, kids, i, prefix, depth, maxDepth), depth) == ChildRows(kids, i, prefix, depth)
  {
    var e := kids[i - 1];
    var isLast := i - 1 == |kids| - 1;
    var before := RowsUpTo(n, kids, i - 1, prefix, depth, maxDepth);
    var row := ChildRow(kids, i - 1, prefix, depth);
    var sub := if e.node.Dir? then Rows(e.node, prefix + Extension(isLast), depth + 1, maxDepth) else [];
    RowsUpToStep(n, kids, i - 1, i, prefix, depth, maxDepth);
    RowsShaped(e.node, prefix + Extension(isLast), depth + 1, maxDepth);
    AtDepthNone(sub, depth);
    AtDepthAppend(before + [row], sub, depth);
    AtDepthAppend(before, [row], depth);
    assert AtDepth([row], depth) == AtDepth([], depth) + [row];
  }

  /** The rows of one level are the directory's children in sorted order, `└── ` on the last and `├── ` on the others. */
  lemma TopLevelRows(n: Node, prefix: string, depth: int, maxDepth: int)
    requires depth <= maxDepth
    ensures |AtDepth(Rows(n, prefix, depth, maxDepth), depth)| == |Children(n)|
    ensures forall j :: 0 <= j < |Children(n)| ==>
      AtDepth(Rows(n, prefix, depth, maxDepth), depth)[j] == ChildRow(Children(n), j, prefix, depth)
  {
    var kids := Children(n);
    RowsUpToTop(n, kids, |kids|, prefix, depth, maxDepth);
  }

  /**
   * Right after the line of a directory child come the lines of its own
   * subtree, one level deeper, each starting with the parent's prefix
   * extended by four blanks after the last child and by a bar otherwise.
   */
  lemma SubtreeFollowsChild(n: Node, prefix: string, depth: int, maxDepth: int, j: nat)
    requires depth <= maxDepth
    requires j < |Children(n)| && Children(n)[j].node.Dir?
    ensures var kids := Children(n);
      var ext := prefix + Extension(j == |kids| - 1);
      var sub := Rows(kids[j].node, ext, depth + 1, maxDepth);
      RowsUpTo(n, kids, j + 1, prefix, depth, maxDepth) ==
        RowsUpTo(n, kids, j, prefix, depth, maxDepth) + [ChildRow(kids, j, prefix, depth)] + sub &&
      forall r :: r in sub ==> ext <= r.prefix && depth < r.depth <= maxDepth
  {
    var kids := Children(n);
    var ext := prefix + Extension(j == |kids| - 1);
    RowsShaped(kids[j].node, ext, depth + 1, maxDepth);
  }

  /** `NameLe` is a total preorder, so the children come out sorted by name. */
  lemma NameLeTotalOrder()
    ensures Sorting.Total(NameLe) && Sorting.Transitive(NameLe)
  {
    forall a: Entry, b: Entry ensures NameLe(a, b) || NameLe(b, a) {
      LexLeTotal(a.name, b.name);
    }
    forall a: Entry, b: Entry, c: Entry | NameLe(a, b) && NameLe(b, c) ensures NameLe(a, c) {
      LexLeTransitive(a.name, b.name, c.name);
    }
  }

  /** The children are exactly the globbed entries, sorted by name. */
  lemma ChildrenSorted(n: Node)
    ensures Sorting.Sorted(Children(n), NameLe)
    ensures multiset(Children(n)) == multiset(Globbed(n))
  {
    NameLeTotalOrder();
    Sorting.SortSorts(Globbed(n), NameLe);
    Sorting.SortPermutes(Globbed(n), NameLe);
  }
}
