/**
 * The filesystem as the bot sees it at the moment a command runs: a tree of
 * directories, regular files and other entries (FIFOs, sockets, devices).
 * `readable` is read permission; search permission on directories is assumed.
 * A directory's `entries` are in `os.listdir` / `os.scandir` order. A file's
 * `text` is false when decoding it as UTF-8 fails (the locale
 * encoding `/cat` and `/tail` read with is taken to be UTF-8); `size` is its size in bytes
 * and `lines` its text as `readlines()` returns it (line ends included).
 */
module FileTree {
  import opened Maybe
  import opened Paths

  datatype Entry = Entry(name: string, node: Node)

  datatype Node =
    | Dir(readable: bool, entries: seq<Entry>)
    | File(readable: bool, text: bool, size: nat, lines: seq<string>)
    | Special(readable: bool)

  function Names(es: seq<Entry>): (ns: seq<string>)
    ensures |ns| == |es|
    ensures forall i :: 0 <= i < |es| ==> ns[i] == es[i].name
  {
    if es == [] then [] else [es[0].name] + Names(es[1..])
  }

  /** Entry names are usable path components and no name repeats, at every level. */
  predicate WellFormed(n: Node)
  {
    match n
    case Dir(_, es) =>
      (forall i :: 0 <= i < |es| ==> IsName(es[i].name) && WellFormed(es[i].node)) &&
      (forall i, j :: 0 <= i < j < |es| ==> es[i].name != es[j].name)
    case _ => true
  }

  /** The first entry called `name`. */
  function Child(es: seq<Entry>, name: string): (r: Option<Node>)
    ensures r.Some? <==> name in Names(es)
    ensures r.Some? ==> exists i :: 0 <= i < |es| && es[i] == Entry(name, r.value)
  {
    if es == [] then None
    else if es[0].name == name then Some(es[0].node)
    else
      var r := Child(es[1..], name);
      assert r.Some? ==> Entry(name, r.value) in es[1..];
      r
  }

  /** The node at path `p` below `root`; `None` when a component is missing or not a directory. */
  function Lookup(root: Node, p: Path): Option<Node>
    decreases |p|
  {
    if p == [] then Some(root)
    else match root
      case Dir(_, es) =>
        (match Child(es, p[0])
         case None => None
         case Some(n) => Lookup(n, p[1..]))
      case _ => None
  }

  /** `os.path.exists`. */
  predicate Exists(root: Node, p: Path) { Lookup(root, p).Some? }

  /**
   * `os.path.exists(os.path.join(dir, token))`: the joined path exists, and
   * it is a directory when the token ends in `/`, `.` or `..`.
   */
  predicate ExistsJoined(root: Node, dir: Path, token: string)
  {
    Exists(root, Joined(dir, token)) && (DirOnly(token) ==> IsDirAt(root, Joined(dir, token)))
  }

  /** `os.path.isdir`. */
  predicate IsDirAt(root: Node, p: Path) { Lookup(root, p).Some? && Lookup(root, p).value.Dir? }

  /** `os.path.isfile`. */
  predicate IsFileAt(root: Node, p: Path) { Lookup(root, p).Some? && Lookup(root, p).value.File? }

  /** `os.access(p, os.R_OK)` for an existing `p`. */
  predicate IsReadableAt(root: Node, p: Path) { Lookup(root, p).Some? && Lookup(root, p).value.readable }

  /** Every entry of `ds` is an entry of the directory `n`. */
  predicate Within(n: Node, ds: seq<Entry>)
  {
    forall e :: e in ds ==> n.Dir? && e in n.entries
  }

  /** `os.listdir(p)` succeeds. */
  predicate IsListableAt(root: Node, p: Path) { IsDirAt(root, p) && Lookup(root, p).value.readable }

  /** Looking up a longer path continues from the node at its head. */
  lemma {:induction false} LookupAppend(root: Node, p: Path, q: Path)
    ensures Lookup(root, p + q) ==
      (match Lookup(root, p) case None => None case Some(n) => Lookup(n, q))
    decreases |p|
  {
    if p == [] {
      assert p + q == q;
    } else {
      assert (p + q)[0] == p[0] && (p + q)[1..] == p[1..] + q;
      if root.Dir? && Child(root.entries, p[0]).Some? {
        LookupAppend(Child(root.entries, p[0]).value, p[1..], q);
      }
    }
  }

  /** In a well-formed tree a directory's entry is found by its name. */
  lemma {:induction false} ChildOfEntry(es: seq<Entry>, i: nat)
    requires i < |es|
    requires forall a, b :: 0 <= a < b < |es| ==> es[a].name != es[b].name
    ensures Child(es, es[i].name) == Some(es[i].node)
  {
    if i > 0 {
      ChildOfEntry(es[1..], i - 1);
    }
  }

  /** Every node of a well-formed tree is well formed. */
  lemma {:induction false} LookupWellFormed(fs: Node, p: Path)
    requires WellFormed(fs) && Exists(fs, p)
    ensures WellFormed(Lookup(fs, p).value)
    decreases |p|
  {
    if p != [] {
      var n := Child(fs.entries, p[0]).value;
      LookupWellFormed(n, p[1..]);
    }
  }

  /** A regular file is not found under its name followed by `/`; a directory is. */
  lemma SlashedExists(fs: Node, dir: Path, name: string)
    requires IsNormal(dir) && IsName(name)
    ensures ExistsJoined(fs, dir, name + "/") <==> IsDirAt(fs, dir + [name])
    ensures ExistsJoined(fs, dir, name) <==> Exists(fs, dir + [name])
  {
    SlashedName(dir, name);
    JoinedName(dir, name);
  }
}
