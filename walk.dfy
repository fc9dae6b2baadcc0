/**
 * `os.walk(top)` over the abstract tree, top-down and with the default
 * `onerror=None`: a directory that cannot be listed yields nothing (and so
 * does a `top` that is not a directory); otherwise one triple
 * `(root, dirs, files)` in `os.scandir` order, with every non-directory in
 * `files`, followed by the walks of the subdirectories in `dirs`, in order.
 * `root` is kept relative to `top` as a list of components.
 */
module Traversal {
  import opened Maybe
  import opened Paths
  import opened FileTree

  datatype Visit = Visit(rel: Path, dirs: seq<Entry>, files: seq<Entry>)

  function DirsOf(es: seq<Entry>): (ds: seq<Entry>)
    ensures forall e :: e in ds ==> e in es && e.node.Dir?
  {
    if es == [] then [] else (if es[0].node.Dir? then [es[0]] else []) + DirsOf(es[1..])
  }

  function FilesOf(es: seq<Entry>): (fs: seq<Entry>)
    ensures forall e :: e in fs ==> e in es && !e.node.Dir?
  {
    if es == [] then [] else (if es[0].node.Dir? then [] else [es[0]]) + FilesOf(es[1..])
  }

  /** Every directory entry is in `dirs` and every other entry in `files`. */
  lemma {:induction false} Partitioned(es: seq<Entry>, e: Entry)
    requires e in es
    ensures e.node.Dir? ==> e in DirsOf(es)
    ensures !e.node.Dir? ==> e in FilesOf(es)
  {
    if es[0] != e {
      Partitioned(es[1..], e);
    }
  }

  /** `dirs` and `files` together have as many entries as the directory. */
  lemma {:induction false} PartitionSizes(es: seq<Entry>)
    ensures |DirsOf(es)| + |FilesOf(es)| == |es|
  {
    if es != [] {
      PartitionSizes(es[1..]);
    }
  }

  /** The triples `os.walk` yields for the directory `n`, whose path relative to `top` is `base`. */
  function Walk(n: Node, base: Path): seq<Visit>
    decreases n, 1
  {
    if n.Dir? && n.readable then
      var ds := DirsOf(n.entries);
      [Visit(base, ds, FilesOf(n.entries))] + WalkUpTo(n, ds, |ds|, base)
    else []
  }

  lemma DirsWithin(n: Node)
    requires n.Dir?
    ensures Within(n, DirsOf(n.entries))
  {
  }

  /** The walks of the first `i` subdirectories in `ds`. */
  function WalkUpTo(n: Node, ds: seq<Entry>, i: nat, base: Path): seq<Visit>
    requires i <= |ds|
    requires n.Dir? && Within(n, ds)
    decreases n, 0, i
  {
    if i == 0 then []
    else
      var e := ds[i - 1];
      assert e in ds;
      assert e in n.entries;
      WalkUpTo(n, ds, i - 1, base) + Walk(e.node, base + [e.name])
  }

  /** `q` leads from `n` through listable directories only, ending at one. */
  predicate WalkedDir(n: Node, q: Path): (b: bool)
    ensures b ==> IsListableAt(n, q)
    decreases |q|
  {
    match n
    case Dir(readable, es) =>
      readable &&
      (q == [] || match Child(es, q[0]) case None => false case Some(c) => WalkedDir(c, q[1..]))
    case _ => false
  }

  /** The entries of the listable directory at `q`. */
  function EntriesAt(n: Node, q: Path): seq<Entry>
    requires WalkedDir(n, q)
  {
    Lookup(n, q).value.entries
  }

  /** A position at which `x` occurs in `s`. */
  lemma IndexOf<T>(s: seq<T>, x: T) returns (k: nat)
    requires x in s
    ensures k < |s| && s[k] == x
  {
    k :| 0 <= k < |s| && s[k] == x;
  }

  /** Every triple the walk yields is for a directory reached through listable directories, and lists that directory. */
  lemma {:induction false} WalkSound(n: Node, base: Path, v: Visit)
    requires WellFormed(n)
    requires v in Walk(n, base)
    ensures base <= v.rel
    ensures WalkedDir(n, v.rel[|base|..])
    ensures v.dirs == DirsOf(EntriesAt(n, v.rel[|base|..]))
    ensures v.files == FilesOf(EntriesAt(n, v.rel[|base|..]))
    decreases n, 1
  {
    var ds := DirsOf(n.entries);
    if v == Visit(base, ds, FilesOf(n.entries)) {
      assert v.rel[|base|..] == [];
    } else {
      DirsWithin(n);
      WalkUpToSound(n, ds, |ds|, base, v);
    }
  }

  lemma {:induction false} WalkUpToSound(n: Node, ds: seq<Entry>, i: nat, base: Path, v: Visit)
    requires WellFormed(n) && n.Dir? && n.readable
    requires i <= |ds|
    requires n.Dir? && Within(n, ds)
    requires v in WalkUpTo(n, ds, i, base)
    ensures base <= v.rel
    ensures WalkedDir(n, v.rel[|base|..])
    ensures v.dirs == DirsOf(EntriesAt(n, v.rel[|base|..]))
    ensures v.files == FilesOf(EntriesAt(n, v.rel[|base|..]))
    decreases n, 0, i
  {
    var e := ds[i - 1];
    if v in WalkUpTo(n, ds, i - 1, base) {
      WalkUpToSound(n, ds, i - 1, base, v);
    } else {
      assert e in ds;
      var k := IndexOf(n.entries, e);
      assert WellFormed(e.node);
      WalkSound(e.node, base + [e.name], v);
      StepDown(n, k, base, v.rel);
    }
  }

  /** A path that descends into the `k`-th entry is walked from the parent when the rest is walked from the entry. */
  lemma StepDown(n: Node, k: nat, base: Path, rel: Path)
    requires WellFormed(n) && n.Dir? && n.readable && k < |n.entries|
    requires base + [n.entries[k].name] <= rel
    requires WalkedDir(n.entries[k].node, rel[|base| + 1..])
    ensures base <= rel
    ensures WalkedDir(n, rel[|base|..])
    ensures EntriesAt(n, rel[|base|..]) == EntriesAt(n.entries[k].node, rel[|base| + 1..])
  {
    var e := n.entries[k];
    var full := rel[|base|..];
    assert (base + [e.name])[..|base|] == base;
    assert full[0] == e.name && full[1..] == rel[|base| + 1..];
    ChildOfEntry(n.entries, k);
    assert Lookup(n, full) == Lookup(e.node, full[1..]);
  }

  /** Where the `t`-th triple of the walk of the `j`-th subdirectory sits in the walks of the first `i`. */
  lemma {:induction false} WalkUpToContains(n: Node, ds: seq<Entry>, i: nat, base: Path, j: nat, t: nat) returns (k: nat)
    requires i <= |ds|
    requires n.Dir? && Within(n, ds)
    requires j < i
    requires t < |Walk(ds[j].node, base + [ds[j].name])|
    ensures k < |WalkUpTo(n, ds, i, base)|
    ensures WalkUpTo(n, ds, i, base)[k] == Walk(ds[j].node, base + [ds[j].name])[t]
    decreases i
  {
    var h := i - 1;
    if j == h {
      k := WalkUpToLast(n, ds, i, base, t);
    } else {
      k := WalkUpToContains(n, ds, h, base, j, t);
      WalkUpToGrows(n, ds, i, base, k);
    }
  }

  /** The walk of the last of the first `i` subdirectories closes their walks. */
  lemma WalkUpToLast(n: Node, ds: seq<Entry>, i: nat, base: Path, t: nat) returns (k: nat)
    requires 0 < i <= |ds|
    requires n.Dir? && Within(n, ds)
    requires t < |Walk(ds[i - 1].node, base + [ds[i - 1].name])|
    ensures k < |WalkUpTo(n, ds, i, base)|
    ensures WalkUpTo(n, ds, i, base)[k] == Walk(ds[i - 1].node, base + [ds[i - 1].name])[t]
  {
    k := |WalkUpTo(n, ds, i - 1, base)| + t;
  }

  /** Walking one more subdirectory keeps every triple already yielded in its place. */
  lemma WalkUpToGrows(n: Node, ds: seq<Entry>, i: nat, base: Path, k: nat)
    requires 0 < i <= |ds|
    requires n.Dir? && Within(n, ds)
    requires k < |WalkUpTo(n, ds, i - 1, base)|
    ensures k < |WalkUpTo(n, ds, i, base)| && WalkUpTo(n, ds, i, base)[k] == WalkUpTo(n, ds, i - 1, base)[k]
  {
  }

  /** The walk of a subdirectory is part of the walk of its parent. */
  lemma WalkThroughChild(n: Node, base: Path, e: Entry, v: Visit)
    requires n.Dir? && n.readable && e in n.entries && e.node.Dir?
    requires v in Walk(e.node, base + [e.name])
    ensures v in Walk(n, base)
  {
    var ds := DirsOf(n.entries);
    DirsWithin(n);
    Partitioned(n.entries, e);
    var j := IndexOf(ds, e);
    var t :| 0 <= t < |Walk(e.node, base + [e.name])| && Walk(e.node, base + [e.name])[t] == v;
    var k := WalkUpToContains(n, ds, |ds|, base, j, t);
    WalkAfterTop(n, base, k);
  }

  /** After its own triple, the walk of `n` is the walks of its subdirectories. */
  lemma WalkAfterTop(n: Node, base: Path, k: nat)
    requires n.Dir? && n.readable
    requires Within(n, DirsOf(n.entries))
    requires k < |WalkUpTo(n, DirsOf(n.entries), |DirsOf(n.entries)|, base)|
    ensures 1 + k < |Walk(n, base)|
    ensures Walk(n, base)[1 + k] == WalkUpTo(n, DirsOf(n.entries), |DirsOf(n.entries)|, base)[k]
  {
  }

  lemma ChildIsEntry(es: seq<Entry>, name: string)
    requires Child(es, name).Some?
    ensures Entry(name, Child(es, name).value) in es
  {
  }

  /** Every directory reached through listable directories gets its triple. */
  lemma {:induction false} WalkComplete(n: Node, base: Path, q: Path, v: Visit)
    requires WellFormed(n)
    requires WalkedDir(n, q)
    requires v.rel == base + q
    requires v.dirs == DirsOf(EntriesAt(n, q)) && v.files == FilesOf(EntriesAt(n, q))
    ensures v in Walk(n, base)
    decreases |q|
  {
    if q == [] {
      WalkHasTop(n, base);
      assert base + q == base;
    } else {
      var m := Child(n.entries, q[0]).value;
      ChildIsEntry(n.entries, q[0]);
      var e := Entry(q[0], m);
      ChildWellFormed(n, e);
      EntriesAtChild(n, q);
      AppendHead(base, q);
      WalkComplete(m, base + [q[0]], q[1..], v);
      WalkThroughChild(n, base, e, v);
    }
  }

  lemma AppendHead(base: Path, q: Path)
    requires q != []
    ensures (base + [q[0]]) + q[1..] == base + q
  {
    assert q == [q[0]] + q[1..];
  }

  lemma WalkHasTop(n: Node, base: Path)
    requires n.Dir? && n.readable
    ensures Visit(base, DirsOf(n.entries), FilesOf(n.entries)) in Walk(n, base)
  {
  }

  lemma ChildWellFormed(n: Node, e: Entry)
    requires WellFormed(n) && n.Dir? && e in n.entries
    ensures WellFormed(e.node)
  {
    var k := IndexOf(n.entries, e);
  }

  lemma EntriesAtChild(n: Node, q: Path)
    requires WalkedDir(n, q) && q != []
    ensures Child(n.entries, q[0]).Some?
    ensures EntriesAt(n, q) == EntriesAt(Child(n.entries, q[0]).value, q[1..])
  {
  }

  /** The walk of `top` when it may be missing: nothing at all then. */
  function WalkAt(fs: Node, top: Path): seq<Visit>
  {
    match Lookup(fs, top)
    case None => []
    case Some(n) => Walk(n, [])
  }

  /** The triples the walk yields are exactly one per directory reached through listable directories. */
  lemma WalkExact(n: Node, v: Visit)
    requires WellFormed(n)
    ensures v in Walk(n, []) <==>
      WalkedDir(n, v.rel) && v.dirs == DirsOf(EntriesAt(n, v.rel)) && v.files == FilesOf(EntriesAt(n, v.rel))
  {
    if v in Walk(n, []) {
      WalkSound(n, [], v);
      assert v.rel[0..] == v.rel;
    }
    if WalkedDir(n, v.rel) && v.dirs == DirsOf(EntriesAt(n, v.rel)) && v.files == FilesOf(EntriesAt(n, v.rel)) {
      WalkComplete(n, [], v.rel, v);
      assert [] + v.rel == v.rel;
    }
  }

  /** An entry listed in the directory reached by `q` is what looking up `q + [name]` finds. */
  lemma ListedEntry(n: Node, q: Path, e: Entry)
    requires WellFormed(n)
    requires WalkedDir(n, q)
    ensures e in EntriesAt(n, q) <==> Lookup(n, q + [e.name]) == Some(e.node)
  {
    var d := Lookup(n, q).value;
    LookupWellFormed(n, q);
    LookupAppend(n, q, [e.name]);
    assert Lookup(d, [e.name]) == (match Child(d.entries, e.name) case None => None case Some(c) => Lookup(c, []));
    if e in d.entries {
      var k := IndexOf(d.entries, e);
      ChildOfEntry(d.entries, k);
    }
    if Lookup(n, q + [e.name]) == Some(e.node) {
      assert Child(d.entries, e.name) == Some(e.node);
    }
  }
}
