/**
 * Distinctness and the stable sort behind Python's `list.sort(key=...)` and
 * `sorted(...)`, parameterised by the "key(a) <= key(b)" comparison.
 */
module Sequences {

  predicate Distinct<T(==)>(xs: seq<T>) {
    forall i, j :: 0 <= i < j < |xs| ==> xs[i] != xs[j]
  }

  /**
   * `xs` follows `ys` in order: `idx` gives, strictly upward, a position in
   * `ys` for each element of `xs`, and `rel` holds between the two.
   */
  ghost predicate PairedInOrder<A, B>(xs: seq<A>, ys: seq<B>, idx: seq<int>, rel: (A, B) -> bool) {
    && |idx| == |xs|
    && (forall k :: 0 <= k < |idx| ==> 0 <= idx[k] < |ys| && rel(xs[k], ys[idx[k]]))
    && (forall k, l :: 0 <= k < l < |idx| ==> idx[k] < idx[l])
  }

  /** `xs` is `ys` with some elements left out, as witnessed by `idx`. */
  ghost predicate PicksInOrder<T>(xs: seq<T>, ys: seq<T>, idx: seq<int>) {
    PairedInOrder(xs, ys, idx, (x: T, y: T) => x == y)
  }

  ghost predicate Subsequence<T>(xs: seq<T>, ys: seq<T>) {
    exists idx :: PicksInOrder(xs, ys, idx)
  }

  /** Every position moved one place on, as when an element is put in front. */
  function Shift(idx: seq<int>): (r: seq<int>)
    ensures |r| == |idx| && forall k :: 0 <= k < |idx| ==> r[k] == idx[k] + 1
  {
    seq(|idx|, k requires 0 <= k < |idx| => idx[k] + 1)
  }

  /** Skipping the head of `ys` keeps a pairing valid, one place on. */
  lemma PairedSkip<A, B>(xs: seq<A>, ys: seq<B>, idx: seq<int>, rel: (A, B) -> bool)
    requires |ys| > 0 && PairedInOrder(xs, ys[1..], idx, rel)
    ensures PairedInOrder(xs, ys, Shift(idx), rel)
  {
    forall k | 0 <= k < |idx|
      ensures ys[1..][idx[k]] == ys[idx[k] + 1]
    {
    }
  }

  /** Pairing `x` with the head of `ys` puts position 0 in front. */
  lemma PairedKeep<A, B>(x: A, xs: seq<A>, ys: seq<B>, idx: seq<int>, rel: (A, B) -> bool)
    requires |ys| > 0 && rel(x, ys[0]) && PairedInOrder(xs, ys[1..], idx, rel)
    ensures PairedInOrder([x] + xs, ys, [0] + Shift(idx), rel)
  {
    PairedSkip(xs, ys, idx, rel);
    var r := [0] + Shift(idx);
    forall k | 1 <= k < |r|
      ensures r[k] == Shift(idx)[k - 1] && ([x] + xs)[k] == xs[k - 1]
    {
    }
  }

  lemma PicksSkip<T>(xs: seq<T>, ys: seq<T>, idx: seq<int>)
    requires |ys| > 0 && PicksInOrder(xs, ys[1..], idx)
    ensures PicksInOrder(xs, ys, Shift(idx))
  {
    PairedSkip(xs, ys, idx, (x: T, y: T) => x == y);
  }

  lemma PicksKeep<T>(xs: seq<T>, ys: seq<T>, idx: seq<int>)
    requires |ys| > 0 && PicksInOrder(xs, ys[1..], idx)
    ensures PicksInOrder([ys[0]] + xs, ys, [0] + Shift(idx))
  {
    PairedKeep(ys[0], xs, ys, idx, (x: T, y: T) => x == y);
  }

  /** A comparison that is total and transitive, as Python's tuple and string orders are. */
  ghost predicate TotalPreorder<T(!new)>(le: (T, T) -> bool) {
    && (forall a, b :: le(a, b) || le(b, a))
    && (forall a, b, c :: le(a, b) && le(b, c) ==> le(a, c))
  }

  predicate SortedBy<T>(xs: seq<T>, le: (T, T) -> bool) {
    forall i, j :: 0 <= i < j < |xs| ==> le(xs[i], xs[j])
  }

  /** A sorted sequence's head is below everything after it. */
  lemma SortedHead<T>(xs: seq<T>, le: (T, T) -> bool)
    requires SortedBy(xs, le) && |xs| > 0
    ensures forall y :: y in xs[1..] ==> le(xs[0], y)
  {
    forall y | y in xs[1..]
      ensures le(xs[0], y)
    {
      var k :| 0 <= k < |xs| - 1 && xs[1..][k] == y;
      assert xs[k + 1] == y;
    }
  }

  /** An element below everything in a sorted sequence may be put in front of it. */
  lemma SortedCons<T>(x: T, rest: seq<T>, le: (T, T) -> bool)
    requires SortedBy(rest, le)
    requires forall y :: y in rest ==> le(x, y)
    ensures SortedBy([x] + rest, le)
  {
    var r := [x] + rest;
    forall i, j | 0 <= i < j < |r|
      ensures le(r[i], r[j])
    {
      assert r[j] == rest[j - 1];
      if i > 0 {
        assert r[i] == rest[i - 1];
      }
    }
  }

  /** Inserts `x` in front of the first element it does not exceed. */
  function Insert<T>(x: T, ys: seq<T>, le: (T, T) -> bool): (r: seq<T>)
    ensures multiset(r) == multiset(ys) + multiset{x}
    ensures |r| == |ys| + 1
  {
    if |ys| == 0 || le(x, ys[0]) then [x] + ys
    else
      assert ys == [ys[0]] + ys[1..];
      [ys[0]] + Insert(x, ys[1..], le)
  }

  /**
   * Insertion sort. An element is inserted before every element with an
   * equal key that came after it, so equal keys keep their input order:
   * this is the stable sort Python performs.
   */
  function Sort<T>(xs: seq<T>, le: (T, T) -> bool): (r: seq<T>)
    ensures multiset(r) == multiset(xs)
    ensures |r| == |xs|
  {
    if |xs| == 0 then []
    else
      assert xs == [xs[0]] + xs[1..];
      Insert(xs[0], Sort(xs[1..], le), le)
  }

  lemma {:induction false} InsertSorted<T(!new)>(x: T, ys: seq<T>, le: (T, T) -> bool)
    requires TotalPreorder(le) && SortedBy(ys, le)
    ensures SortedBy(Insert(x, ys, le), le)
    decreases |ys|
  {
    if |ys| == 0 || le(x, ys[0]) {
    } else {
      var tail := Insert(x, ys[1..], le);
      InsertSorted(x, ys[1..], le);
      forall e | e in tail
        ensures le(ys[0], e)
      {
        assert e in multiset(tail);
        if e != x {
          assert e in multiset(ys[1..]);
        }
      }
    }
  }

  lemma {:induction false} SortSorted<T(!new)>(xs: seq<T>, le: (T, T) -> bool)
    requires TotalPreorder(le)
    ensures SortedBy(Sort(xs, le), le)
    decreases |xs|
  {
    if |xs| > 0 {
      SortSorted(xs[1..], le);
      InsertSorted(xs[0], Sort(xs[1..], le), le);
    }
  }

  /** `[y]` when `y` has the same key as `c`, otherwise nothing. */
  function IfSameKey<T>(y: T, le: (T, T) -> bool, c: T): seq<T> {
    if le(y, c) && le(c, y) then [y] else []
  }

  /** The elements of `xs` whose key equals `c`'s, in their order in `xs`. */
  function SameKey<T>(xs: seq<T>, le: (T, T) -> bool, c: T): seq<T>
  {
    if |xs| == 0 then [] else IfSameKey(xs[0], le, c) + SameKey(xs[1..], le, c)
  }

  /** A comparison that is transitive through `c`. */
  ghost predicate TransitiveThrough<T(!new)>(le: (T, T) -> bool, c: T) {
    forall a, b :: le(a, c) && le(c, b) ==> le(a, b)
  }

  /** Inserting `x` puts it in front of every element with the same key. */
  lemma {:induction false} InsertSameKey<T(!new)>(x: T, ys: seq<T>, le: (T, T) -> bool, c: T)
    requires TransitiveThrough(le, c)
    ensures SameKey(Insert(x, ys, le), le, c) == IfSameKey(x, le, c) + SameKey(ys, le, c)
    decreases |ys|
  {
    if |ys| == 0 || le(x, ys[0]) {
      SameKeyCons(x, ys, le, c);
    } else {
      var tail := Insert(x, ys[1..], le);
      SameKeyCons(ys[0], tail, le, c);
      InsertSameKey(x, ys[1..], le, c);
      SwapEmpty(IfSameKey(ys[0], le, c), IfSameKey(x, le, c), SameKey(ys[1..], le, c));
    }
  }

  lemma SameKeyCons<T>(y: T, rest: seq<T>, le: (T, T) -> bool, c: T)
    ensures SameKey([y] + rest, le, c) == IfSameKey(y, le, c) + SameKey(rest, le, c)
  {
    assert ([y] + rest)[1..] == rest;
  }

  /** Two sequences of which one is empty may be swapped in front of a third. */
  lemma SwapEmpty<T>(a: seq<T>, b: seq<T>, r: seq<T>)
    requires a == [] || b == []
    ensures a + (b + r) == b + (a + r)
  {
  }

  /**
   * The sort is stable: the elements with any one key come out in their
   * input order.
   */
  lemma {:induction false} SortStable<T(!new)>(xs: seq<T>, le: (T, T) -> bool, c: T)
    requires TotalPreorder(le)
    ensures SameKey(Sort(xs, le), le, c) == SameKey(xs, le, c)
    decreases |xs|
  {
    if |xs| > 0 {
      SortStable(xs[1..], le, c);
      assert TransitiveThrough(le, c);
      InsertSameKey(xs[0], Sort(xs[1..], le), le, c);
    }
  }

  lemma {:induction false} DistinctCounts<T>(xs: seq<T>, v: T)
    requires Distinct(xs)
    ensures multiset(xs)[v] <= 1
    decreases |xs|
  {
    if |xs| > 0 {
      assert xs == [xs[0]] + xs[1..];
      DistinctCounts(xs[1..], v);
      if v == xs[0] {
        assert v !in xs[1..];
      }
    }
  }

  /** A sequence of length one is the singleton of its element. */
  lemma SingletonSeq<T>(s: seq<T>, x: T)
    requires |s| == 1 && s[0] == x
    ensures s == [x]
  {
  }

  /** The multiset of a non-empty sequence is its head and the multiset of its tail. */
  lemma MultisetCons<T>(xs: seq<T>)
    requires |xs| > 0
    ensures multiset(xs) == multiset{xs[0]} + multiset(xs[1..])
  {
    assert xs == [xs[0]] + xs[1..];
  }

  /** A rearrangement of a duplicate-free sequence is duplicate-free. */
  lemma DistinctPermutation<T>(a: seq<T>, b: seq<T>)
    requires multiset(a) == multiset(b) && Distinct(a)
    ensures Distinct(b)
  {
    forall i, j | 0 <= i < j < |b|
      ensures b[i] != b[j]
    {
      if b[i] == b[j] {
        var v := b[i];
        assert b == b[..j] + b[j..];
        assert v in b[..j] && v in b[j..];
        assert multiset(b)[v] == multiset(b[..j])[v] + multiset(b[j..])[v];
        DistinctCounts(a, v);
        assert false;
      }
    }
  }

  /** A subset is no larger than its superset. */
  lemma {:induction false} SubsetSize<T>(a: set<T>, b: set<T>)
    requires a <= b
    ensures |a| <= |b|
    decreases |a|
  {
    if a != {} {
      var x :| x in a;
      SubsetSize(a - {x}, b - {x});
    }
  }
}
