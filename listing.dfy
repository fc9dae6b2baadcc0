/**
 * `/ls`: one level of the current directory. Each `os.listdir` name becomes
 * an item: a regular file (with its size), an error item when reading the
 * file's size or time raised, or else a "dir" item (anything `os.path.isfile`
 * rejects, FIFOs and sockets included). Items are then sorted by the key
 * `(type != 'dir', name.lower())`; the total adds the size of every file whose
 * size could be read.
 */
module Listing {
  import opened Text
  import opened Paths
  import opened FileTree
  import Sorting

  datatype Kind = FileItem | DirItem | ErrorItem

  datatype Item = Item(kind: Kind, name: string, size: nat)

  /** What inspecting one regular file does: both calls succeed, `getsize` raises, or `getmtime` raises after `getsize` succeeded. */
  datatype Probe = Fine | SizeFails | TimeFails

  datatype ListReply = ListFailed | Listed(items: seq<Item>, totalSize: nat)

  function ProbeOf(probes: map<string, Probe>, name: string): Probe
  {
    if name in probes then probes[name] else Fine
  }

  /** The item the loop body appends for one entry. */
  function Inspect(e: Entry, probes: map<string, Probe>): (it: Item)
    ensures it.name == e.name
    ensures it.kind == DirItem <==> !e.node.File?
  {
    if !e.node.File? then Item(DirItem, e.name, 0)
    else if ProbeOf(probes, e.name) == Fine then Item(FileItem, e.name, e.node.size)
    else Item(ErrorItem, e.name, 0)
  }

  function Inspected(es: seq<Entry>, probes: map<string, Probe>): (items: seq<Item>)
    ensures |items| == |es|
    ensures forall i :: 0 <= i < |es| ==> items[i] == Inspect(es[i], probes)
  {
    if es == [] then [] else Inspected(es[..|es| - 1], probes) + [Inspect(es[|es| - 1], probes)]
  }

  /** Bytes the loop adds to `total_size` for one entry. */
  function Counted(e: Entry, probes: map<string, Probe>): nat
  {
    if e.node.File? && ProbeOf(probes, e.name) != SizeFails then e.node.size else 0
  }

  function CountedTotal(es: seq<Entry>, probes: map<string, Probe>): nat
  {
    if es == [] then 0 else CountedTotal(es[..|es| - 1], probes) + Counted(es[|es| - 1], probes)
  }

  /** Sum of the sizes of the file items. */
  function FileBytes(items: seq<Item>): nat
  {
    if items == [] then 0
    else FileBytes(items[..|items| - 1]) + (if items[|items| - 1].kind == FileItem then items[|items| - 1].size else 0)
  }

  /** `x['type'] != 'dir'`, the first half of the sort key. */
  function Group(it: Item): bool { it.kind != DirItem }

  /** Python's `<=` on the keys `(type != 'dir', name.lower())`. */
  function KeyLe(a: Item, b: Item): bool
  {
    (!Group(a) && Group(b)) || (Group(a) == Group(b) && LexLe(Lower(a.name), Lower(b.name)))
  }

  function SortItems(items: seq<Item>): seq<Item>
  {
    Sorting.Sort(items, KeyLe)
  }

  /** The `/ls` handler's work on directory `cur`, with the file-inspection outcomes as input. */
  method ListDirectory(fs: Node, cur: Path, probes: map<string, Probe>) returns (r: ListReply)
    ensures !IsListableAt(fs, cur) ==> r == ListFailed
    ensures IsListableAt(fs, cur) ==>
      var es := Lookup(fs, cur).value.entries;
      r == Listed(SortItems(Inspected(es, probes)), CountedTotal(es, probes))
  {
    if !IsListableAt(fs, cur) {
      return ListFailed;
    }
    var es := Lookup(fs, cur).value.entries;
    var items, total := InspectAll(es, probes);
    items := SortItems(items);
    return Listed(items, total);
  }

  /** The loop over `os.listdir`: one item per name, and the running total. */
  method InspectAll(es: seq<Entry>, probes: map<string, Probe>) returns (items: seq<Item>, total: nat)
    ensures items == Inspected(es, probes)
    ensures total == CountedTotal(es, probes)
  {
    items := [];
    total := 0;
    for i := 0 to |es|
      invariant items == Inspected(es[..i], probes)
      invariant total == CountedTotal(es[..i], probes)
    {
      var e := es[i];
      if e.node.File? {
        var probe := ProbeOf(probes, e.name);
        if probe == SizeFails {
          items := items + [Item(ErrorItem, e.name, 0)];
        } else {
          var size := e.node.size;
          total := total + size;
          if probe == TimeFails {
            items := items + [Item(ErrorItem, e.name, 0)];
          } else {
            items := items + [Item(FileItem, e.name, size)];
          }
        }
      } else {
        items := items + [Item(DirItem, e.name, 0)];
      }
      ListStep(es, i, probes);
    }
    assert es[..|es|] == es;
  }

  lemma ListStep(es: seq<Entry>, i: nat, probes: map<string, Probe>)
    requires i < |es|
    ensures Inspected(es[..i + 1], probes) == Inspected(es[..i], probes) + [Inspect(es[i], probes)]
    ensures CountedTotal(es[..i + 1], probes) == CountedTotal(es[..i], probes) + Counted(es[i], probes)
  {
    assert es[..i + 1][..i] == es[..i];
  }

  // ------------------------------------------------------------- lemmas

  lemma KeyLeTotal()
    ensures Sorting.Total(KeyLe)
  {
    forall a: Item, b: Item ensures KeyLe(a, b) || KeyLe(b, a) {
      LexLeTotal(Lower(a.name), Lower(b.name));
    }
  }

  lemma KeyLeTransitive()
    ensures Sorting.Transitive(KeyLe)
  {
    forall a: Item, b: Item, c: Item | KeyLe(a, b) && KeyLe(b, c) ensures KeyLe(a, c) {
      if Group(a) == Group(b) == Group(c) {
        LexLeTransitive(Lower(a.name), Lower(b.name), Lower(c.name));
      }
    }
  }

  /**
   * The listing puts every "dir" item before every other item, and orders
   * each of the two groups by lower-cased name.
   */
  lemma ListingOrder(es: seq<Entry>, probes: map<string, Probe>)
    ensures var items := SortItems(Inspected(es, probes));
      forall i, j :: 0 <= i < j < |items| ==>
        (items[j].kind == DirItem ==> items[i].kind == DirItem) &&
        (Group(items[i]) == Group(items[j]) ==> LexLe(Lower(items[i].name), Lower(items[j].name)))
  {
    KeyLeTotal();
    KeyLeTransitive();
    Sorting.SortSorts(Inspected(es, probes), KeyLe);
  }

  function ItemName(it: Item): string { it.name }

  function ItemNames(items: seq<Item>): seq<string>
  {
    Sorting.Image(ItemName, items)
  }

  /** Every `os.listdir` name appears in the listing exactly as often as in the directory. */
  lemma ListingNames(es: seq<Entry>, probes: map<string, Probe>)
    ensures multiset(ItemNames(SortItems(Inspected(es, probes)))) == multiset(Names(es))
  {
    var items := Inspected(es, probes);
    Sorting.SortPermutes(items, KeyLe);
    Sorting.ImagePermutation(ItemName, SortItems(items), items);
    forall i | 0 <= i < |es| ensures ItemNames(items)[i] == Names(es)[i] {
      Sorting.ImageAt(ItemName, items, i);
    }
    assert ItemNames(items) == Names(es);
  }

  /** In a well-formed tree each name of the directory occurs once in the listing, and no other name does. */
  lemma ListingNamesOnce(fs: Node, cur: Path, probes: map<string, Probe>, n: string)
    requires WellFormed(fs) && IsListableAt(fs, cur)
    ensures var es := Lookup(fs, cur).value.entries;
      multiset(ItemNames(SortItems(Inspected(es, probes))))[n] == (if n in Names(es) then 1 else 0)
  {
    var es := Lookup(fs, cur).value.entries;
    ListingNames(es, probes);
    LookupWellFormed(fs, cur);
    DistinctOnce(Names(es), n);
  }

  lemma {:induction false} DistinctOnce(ns: seq<string>, n: string)
    requires forall i, j :: 0 <= i < j < |ns| ==> ns[i] != ns[j]
    ensures multiset(ns)[n] == (if n in ns then 1 else 0)
    decreases |ns|
  {
    if ns != [] {
      DistinctOnce(ns[1..], n);
      assert ns == [ns[0]] + ns[1..];
      if ns[0] == n {
        assert n !in ns[1..];
      }
    }
  }

  lemma {:induction false} FileBytesAppend(a: seq<Item>, b: seq<Item>)
    ensures FileBytes(a + b) == FileBytes(a) + FileBytes(b)
    decreases |b|
  {
    if b == [] {
      assert a + b == a;
    } else {
      assert (a + b)[..|a + b| - 1] == a + b[..|b| - 1];
      FileBytesAppend(a, b[..|b| - 1]);
    }
  }

  lemma {:induction false} FileBytesFront(a: seq<Item>)
    requires a != []
    ensures FileBytes(a) == FileBytes([a[0]]) + FileBytes(a[1..])
  {
    assert a == [a[0]] + a[1..];
    FileBytesAppend([a[0]], a[1..]);
  }

  lemma {:induction false} FileBytesPermutation(a: seq<Item>, b: seq<Item>)
    requires multiset(a) == multiset(b)
    ensures FileBytes(a) == FileBytes(b)
    decreases |a|
  {
    if a == [] {
      assert |b| == |multiset(b)| == 0;
    } else {
      assert a[0] in multiset(b);
      var k :| 0 <= k < |b| && b[k] == a[0];
      var lo, hi := b[..k], b[k + 1..];
      Sorting.MultisetRemove(a, b, k);
      FileBytesPermutation(a[1..], lo + hi);
      assert b == lo + [b[k]] + hi;
      FileBytesAppend(lo + [b[k]], hi);
      FileBytesAppend(lo, [b[k]]);
      FileBytesAppend(lo, hi);
      FileBytesFront(a);
    }
  }

  /** Sizes of the regular files whose `getmtime` raised after `getsize` succeeded. */
  function TimeFailedBytes(es: seq<Entry>, probes: map<string, Probe>): nat
  {
    if es == [] then 0
    else
      var e := es[|es| - 1];
      TimeFailedBytes(es[..|es| - 1], probes) + (if e.node.File? && ProbeOf(probes, e.name) == TimeFails then e.node.size else 0)
  }

  lemma {:induction false} CountedMatchesFiles(es: seq<Entry>, probes: map<string, Probe>)
    ensures CountedTotal(es, probes) == FileBytes(Inspected(es, probes)) + TimeFailedBytes(es, probes)
    decreases |es|
  {
    if es != [] {
      CountedMatchesFiles(es[..|es| - 1], probes);
    }
  }

  /**
   * The reported total is the sum of the sizes of the file items shown, in
   * whatever order, plus the sizes of the files shown as errors because
   * `getmtime` failed after `getsize` had succeeded; directories and files
   * whose size could not be read count nothing.
   */
  lemma TotalIsFileSizes(es: seq<Entry>, probes: map<string, Probe>)
    ensures CountedTotal(es, probes) == FileBytes(SortItems(Inspected(es, probes))) + TimeFailedBytes(es, probes)
  {
    CountedMatchesFiles(es, probes);
    Sorting.SortPermutes(Inspected(es, probes), KeyLe);
    FileBytesPermutation(Inspected(es, probes), SortItems(Inspected(es, probes)));
  }

  /** A file whose `getmtime` fails after `getsize` succeeded is shown as an error, yet its size is in the total. */
  lemma {:induction false} TimeFailureStillCounted(es: seq<Entry>, probes: map<string, Probe>, k: nat)
    requires k < |es| && es[k].node.File? && ProbeOf(probes, es[k].name) == TimeFails
    ensures Inspected(es, probes)[k].kind == ErrorItem
    ensures TimeFailedBytes(es, probes) >= es[k].node.size
    ensures CountedTotal(es, probes) >= FileBytes(SortItems(Inspected(es, probes))) + es[k].node.size
    decreases |es|
  {
    if k < |es| - 1 {
      TimeFailureStillCounted(es[..|es| - 1], probes, k);
    }
    TotalIsFileSizes(es, probes);
  }
}
