/**
 * Python's `list.sort(key=...)` / `sorted(...)`: a stable ascending sort.
 * The order is given as `le(a, b)`, "the key of a is at most the key of b";
 * an element is inserted after every element whose key is at most its own,
 * so elements with equal keys keep their original order.
 */
module Sorting {

  ghost predicate Total<T(!new)>(le: (T, T) -> bool)
  {
    forall a, b :: le(a, b) || le(b, a)
  }

  ghost predicate Transitive<T(!new)>(le: (T, T) -> bool)
  {
    forall a, b, c :: le(a, b) && le(b, c) ==> le(a, c)
  }

  /** Every element is at most every later element. */
  ghost predicate Sorted<T>(s: seq<T>, le: (T, T) -> bool)
  {
    forall i, j :: 0 <= i < j < |s| ==> le(s[i], s[j])
  }

  function Insert<T>(x: T, s: seq<T>, le: (T, T) -> bool): (r: seq<T>)
    ensures multiset(r) == multiset(s) + multiset{x}
    ensures |r| == |s| + 1
  {
    if s == [] then [x]
    else if le(s[0], x) then
      assert s == [s[0]] + s[1..];
      [s[0]] + Insert(x, s[1..], le)
    else [x] + s
  }

  function Sort<T>(s: seq<T>, le: (T, T) -> bool): seq<T>
  {
    if s == [] then [] else Insert(s[|s| - 1], Sort(s[..|s| - 1], le), le)
  }

  lemma {:induction false} InsertSorted<T(!new)>(x: T, s: seq<T>, le: (T, T) -> bool)
    requires Total(le) && Transitive(le)
    requires Sorted(s, le)
    ensures Sorted(Insert(x, s, le), le)
  {
    if s != [] {
      if le(s[0], x) {
        InsertSorted(x, s[1..], le);
        forall k | 0 <= k < |s[1..]| ensures le(s[0], s[1..][k]) {
          assert s[1..][k] == s[k + 1];
        }
        InsertBounded(s[0], x, s[1..], le);
        ConsSorted(s[0], Insert(x, s[1..], le), le);
      } else {
        assert le(x, s[0]);
        forall k | 0 <= k < |s| ensures le(x, s[k]) {
          if k > 0 {
            assert le(s[0], s[k]);
          }
        }
        ConsSorted(x, s, le);
      }
    }
  }

  /** A lower bound of `x` and of every element of `s` bounds every element of the insertion. */
  lemma {:induction false} InsertBounded<T>(y: T, x: T, s: seq<T>, le: (T, T) -> bool)
    requires le(y, x)
    requires forall k :: 0 <= k < |s| ==> le(y, s[k])
    ensures forall k :: 0 <= k < |Insert(x, s, le)| ==> le(y, Insert(x, s, le)[k])
  {
    if s != [] && le(s[0], x) {
      forall k | 0 <= k < |s[1..]| ensures le(y, s[1..][k]) {
        assert s[1..][k] == s[k + 1];
      }
      InsertBounded(y, x, s[1..], le);
    }
  }

  /** A sorted sequence stays sorted behind a lower bound of all its elements. */
  lemma ConsSorted<T>(a: T, t: seq<T>, le: (T, T) -> bool)
    requires Sorted(t, le)
    requires forall k :: 0 <= k < |t| ==> le(a, t[k])
    ensures Sorted([a] + t, le)
  {
    var r := [a] + t;
    forall i, j | 0 <= i < j < |r| ensures le(r[i], r[j]) {
      assert r[j] == t[j - 1];
      if i > 0 {
        assert r[i] == t[i - 1];
      }
    }
  }

  /** The sort returns its input reordered ... */
  lemma {:induction false} SortPermutes<T>(s: seq<T>, le: (T, T) -> bool)
    ensures multiset(Sort(s, le)) == multiset(s)
  {
    if s != [] {
      SortPermutes(s[..|s| - 1], le);
      LastSplit(s);
    }
  }

  /** ... in ascending order, when the order is total and transitive. */
  lemma {:induction false} SortSorts<T(!new)>(s: seq<T>, le: (T, T) -> bool)
    requires Total(le) && Transitive(le)
    ensures Sorted(Sort(s, le), le)
  {
    if s != [] {
      SortSorts(s[..|s| - 1], le);
      InsertSorted(s[|s| - 1], Sort(s[..|s| - 1], le), le);
    }
  }

  lemma LastSplit<T>(s: seq<T>)
    requires s != []
    ensures multiset(s) == multiset(s[..|s| - 1]) + multiset{s[|s| - 1]}
  {
    assert s == s[..|s| - 1] + [s[|s| - 1]];
  }

  lemma SortLength<T>(s: seq<T>, le: (T, T) -> bool)
    ensures |Sort(s, le)| == |s|
  {
    SortPermutes(s, le);
    assert |multiset(Sort(s, le))| == |multiset(s)|;
  }

  /** Elements of the sorted sequence are elements of the input, and back. */
  lemma SortMembers<T>(s: seq<T>, le: (T, T) -> bool, x: T)
    ensures x in Sort(s, le) <==> x in s
  {
    SortPermutes(s, le);
    assert x in multiset(Sort(s, le)) <==> x in multiset(s);
  }

  /** The images of a sequence's elements, in order. */
  function Image<T, U>(f: T -> U, s: seq<T>): (r: seq<U>)
    ensures |r| == |s|
  {
    if s == [] then [] else [f(s[0])] + Image(f, s[1..])
  }

  lemma {:induction false} ImageAt<T, U>(f: T -> U, s: seq<T>, i: nat)
    requires i < |s|
    ensures Image(f, s)[i] == f(s[i])
  {
    if i > 0 {
      ImageAt(f, s[1..], i - 1);
    }
  }

  lemma {:induction false} ImageAppend<T, U>(f: T -> U, a: seq<T>, b: seq<T>)
    ensures Image(f, a + b) == Image(f, a) + Image(f, b)
  {
    if a != [] {
      assert (a + b)[1..] == a[1..] + b;
      ImageAppend(f, a[1..], b);
    } else {
      assert a + b == b;
    }
  }

  /** Taking the element at `k` out of a sequence takes its image out of the images. */
  lemma ImageRemove<T, U>(f: T -> U, b: seq<T>, k: nat)
    requires k < |b|
    ensures multiset(Image(f, b)) == multiset(Image(f, b[..k] + b[k + 1..])) + multiset{f(b[k])}
  {
    var lo, x, hi := b[..k], b[k], b[k + 1..];
    SplitAt(b, k);
    ImageAround(f, lo, x, hi);
    ImageAppend(f, lo, hi);
    MultisetAround(Image(f, lo), f(x), Image(f, hi));
  }

  lemma SplitAt<T>(b: seq<T>, k: nat)
    requires k < |b|
    ensures b == b[..k] + [b[k]] + b[k + 1..]
  {
  }

  lemma ImageAround<T, U>(f: T -> U, lo: seq<T>, x: T, hi: seq<T>)
    ensures Image(f, lo + [x] + hi) == Image(f, lo) + [f(x)] + Image(f, hi)
  {
    ImageAppend(f, lo + [x], hi);
    ImageAppend(f, lo, [x]);
    assert Image(f, [x]) == [f(x)] + Image(f, []);
  }

  lemma MultisetAround<U>(lo: seq<U>, x: U, hi: seq<U>)
    ensures multiset(lo + [x] + hi) == multiset(lo + hi) + multiset{x}
  {
  }

  lemma MultisetRemove<T>(a: seq<T>, b: seq<T>, k: nat)
    requires k < |b| && |a| > 0 && b[k] == a[0]
    requires multiset(a) == multiset(b)
    ensures multiset(a[1..]) == multiset(b[..k] + b[k + 1..])
  {
    var lo, x, hi := b[..k], b[k], b[k + 1..];
    SplitAt(b, k);
    MultisetAround(lo, x, hi);
    MultisetHead(a);
    assert multiset(a[1..]) == multiset(a) - multiset{x};
    assert multiset(lo + hi) == multiset(b) - multiset{x};
  }

  lemma MultisetHead<T>(a: seq<T>)
    requires |a| > 0
    ensures multiset(a) == multiset(a[1..]) + multiset{a[0]}
  {
    assert a == [a[0]] + a[1..];
  }

  /** Reordering a sequence reorders its images the same way. */
  lemma {:induction false} ImagePermutation<T, U>(f: T -> U, a: seq<T>, b: seq<T>)
    requires multiset(a) == multiset(b)
    ensures multiset(Image(f, a)) == multiset(Image(f, b))
    decreases |a|
  {
    if a == [] {
      assert |b| == |multiset(b)| == 0;
    } else {
      assert a[0] in multiset(b);
      var k :| 0 <= k < |b| && b[k] == a[0];
      MultisetRemove(a, b, k);
      ImagePermutation(f, a[1..], b[..k] + b[k + 1..]);
      ImageRemove(f, b, k);
      assert Image(f, a) == [f(a[0])] + Image(f, a[1..]);
    }
  }
}
