/** Stable grouping of a sequence by a numeric key: the elements of key
  * `i`, then of key `i + 1`, and so on, each group in its original order.
  * The Java-argument tokenizer's result is such a grouping, keyed by the
  * first separator a fragment starts with. */
module Grouping {
  import opened KotlinText

  /** The elements whose key is `i`, in their order. */
  function Keyed<T>(xs: seq<T>, key: T -> nat, i: nat): seq<T>
  {
    if |xs| == 0 then []
    else (if key(xs[0]) == i then [xs[0]] else []) + Keyed(xs[1..], key, i)
  }

  /** The elements of key `i`, then those of key `i + 1`, up to `n - 1`. */
  function Grouped<T>(xs: seq<T>, key: T -> nat, i: nat, n: nat): seq<T>
    requires i <= n
    decreases n - i
  {
    if i == n then [] else Keyed(xs, key, i) + Grouped(xs, key, i + 1, n)
  }

  /** Keyed selection distributes over concatenation. */
  lemma {:induction false} KeyedAppend<T>(a: seq<T>, b: seq<T>, key: T -> nat, i: nat)
    ensures Keyed(a + b, key, i) == Keyed(a, key, i) + Keyed(b, key, i)
    decreases |a|
  {
    if |a| == 0 {
      EmptyLeft(a, b);
    } else {
      KeyedAppend(a[1..], b, key, i);
      DropFirst(a, b);
      var h := if key(a[0]) == i then [a[0]] else [];
      ConcatAssoc(h, Keyed(a[1..], key, i), Keyed(b, key, i));
    }
  }

  /** No element has key `i`: nothing is selected. */
  lemma {:induction false} KeyedNone<T>(xs: seq<T>, key: T -> nat, i: nat)
    requires forall j :: 0 <= j < |xs| ==> key(xs[j]) != i
    ensures Keyed(xs, key, i) == []
    decreases |xs|
  {
    if |xs| > 0 {
      KeyedNone(xs[1..], key, i);
    }
  }

  /** Every element has key `i`: all are selected. */
  lemma {:induction false} KeyedAll<T>(xs: seq<T>, key: T -> nat, i: nat)
    requires forall j :: 0 <= j < |xs| ==> key(xs[j]) == i
    ensures Keyed(xs, key, i) == xs
    decreases |xs|
  {
    if |xs| > 0 {
      KeyedAll(xs[1..], key, i);
      HeadTail(xs);
    }
  }

  /** Groupings agree when every group from `i` on agrees. */
  lemma {:induction false} GroupedSame<T>(a: seq<T>, b: seq<T>, key: T -> nat, i: nat, n: nat)
    requires i <= n
    requires forall k :: i <= k < n ==> Keyed(a, key, k) == Keyed(b, key, k)
    ensures Grouped(a, key, i, n) == Grouped(b, key, i, n)
    decreases n - i
  {
    if i < n {
      GroupedSame(a, b, key, i + 1, n);
    }
  }

  /** The first element of key `i` heads the grouping from `i`; the rest
    * is the grouping of the others. */
  lemma GroupedTake<T>(xs: seq<T>, j: nat, key: T -> nat, i: nat, n: nat)
    requires i < n && j < |xs| && key(xs[j]) == i
    requires forall k :: 0 <= k < j ==> key(xs[k]) != i
    ensures Grouped(xs, key, i, n) == [xs[j]] + Grouped(xs[..j] + xs[j + 1..], key, i, n)
  {
    var rest := xs[..j] + xs[j + 1..];
    KeyedFirst(xs, j, key, i);
    GroupedSkip(xs, j, key, i + 1, n);
    assert Grouped(xs, key, i, n) == Keyed(xs, key, i) + Grouped(xs, key, i + 1, n);
    assert Grouped(rest, key, i, n) == Keyed(rest, key, i) + Grouped(rest, key, i + 1, n);
    ConcatAssoc([xs[j]], Keyed(rest, key, i), Grouped(rest, key, i + 1, n));
  }

  /** Removing an element whose key is below `lo` leaves the grouping from
    * `lo` unchanged. */
  lemma {:induction false} GroupedSkip<T>(xs: seq<T>, j: nat, key: T -> nat, lo: nat, n: nat)
    requires lo <= n && j < |xs| && key(xs[j]) < lo
    ensures Grouped(xs, key, lo, n) == Grouped(xs[..j] + xs[j + 1..], key, lo, n)
    decreases n - lo
  {
    if lo < n {
      KeyedSkip(xs, j, key, lo);
      GroupedSkip(xs, j, key, lo + 1, n);
    }
  }

  /** Selection by key, split around the `j`th element. */
  lemma KeyedAround<T>(xs: seq<T>, j: nat, key: T -> nat, k: nat)
    requires j < |xs|
    ensures Keyed(xs, key, k)
      == Keyed(xs[..j], key, k) + (Keyed([xs[j]], key, k) + Keyed(xs[j + 1..], key, k))
    ensures Keyed(xs[..j] + xs[j + 1..], key, k)
      == Keyed(xs[..j], key, k) + Keyed(xs[j + 1..], key, k)
  {
    SplitAt(xs, j);
    KeyedAppend(xs[..j], [xs[j]] + xs[j + 1..], key, k);
    KeyedAppend([xs[j]], xs[j + 1..], key, k);
    KeyedAppend(xs[..j], xs[j + 1..], key, k);
  }

  /** An element of another key can be removed without changing the
    * selection. */
  lemma KeyedSkip<T>(xs: seq<T>, j: nat, key: T -> nat, k: nat)
    requires j < |xs| && key(xs[j]) != k
    ensures Keyed(xs, key, k) == Keyed(xs[..j] + xs[j + 1..], key, k)
  {
    KeyedAround(xs, j, key, k);
    KeyedOne(xs[j], key, k);
    EmptyLeft(Keyed([xs[j]], key, k), Keyed(xs[j + 1..], key, k));
  }

  /** The first element of key `k` leads the selection. */
  lemma KeyedFirst<T>(xs: seq<T>, j: nat, key: T -> nat, k: nat)
    requires j < |xs| && key(xs[j]) == k
    requires forall m :: 0 <= m < j ==> key(xs[m]) != k
    ensures Keyed(xs, key, k) == [xs[j]] + Keyed(xs[..j] + xs[j + 1..], key, k)
  {
    KeyedAround(xs, j, key, k);
    KeyedNone(xs[..j], key, k);
    KeyedOne(xs[j], key, k);
    EmptyLeft(Keyed(xs[..j], key, k), [xs[j]] + Keyed(xs[j + 1..], key, k));
    EmptyLeft(Keyed(xs[..j], key, k), Keyed(xs[j + 1..], key, k));
  }

  /** A single element is selected exactly by its own key. */
  lemma KeyedOne<T>(x: T, key: T -> nat, i: nat)
    ensures Keyed([x], key, i) == if key(x) == i then [x] else []
  {
    assert [x][1..] == [];
  }

  /** A sequence already ordered by key, with keys in `[i, n)`, is its own
    * grouping. */
  lemma {:induction false} GroupedSorted<T>(xs: seq<T>, key: T -> nat, i: nat, n: nat)
    requires i <= n
    requires forall j :: 0 <= j < |xs| ==> i <= key(xs[j]) < n
    requires forall a, b :: 0 <= a < b < |xs| ==> key(xs[a]) <= key(xs[b])
    ensures Grouped(xs, key, i, n) == xs
    decreases n - i
  {
    if i == n {
      if |xs| > 0 {
        assert false;
      }
    } else {
      var m := CountKey(xs, key, i);
      KeyedPrefix(xs, key, i, m);
      GroupedSorted(xs[m..], key, i + 1, n);
      GroupedDrop(xs, m, key, i + 1, n);
      assert Grouped(xs, key, i, n) == Keyed(xs, key, i) + Grouped(xs, key, i + 1, n);
      TakeDrop(xs, m);
    }
  }

  /** Dropping a prefix whose keys are all below `lo` leaves the grouping
    * from `lo` unchanged. */
  lemma {:induction false} GroupedDrop<T>(xs: seq<T>, m: nat, key: T -> nat, lo: nat, n: nat)
    requires lo <= n && m <= |xs|
    requires forall j :: 0 <= j < m ==> key(xs[j]) < lo
    ensures Grouped(xs, key, lo, n) == Grouped(xs[m..], key, lo, n)
    decreases n - lo
  {
    if lo < n {
      TakeDrop(xs, m);
      KeyedAppend(xs[..m], xs[m..], key, lo);
      KeyedNone(xs[..m], key, lo);
      EmptyLeft(Keyed(xs[..m], key, lo), Keyed(xs[m..], key, lo));
      GroupedDrop(xs, m, key, lo + 1, n);
    }
  }

  /** How many leading elements have key `i`. */
  function CountKey<T>(xs: seq<T>, key: T -> nat, i: nat): (m: nat)
    ensures m <= |xs|
    ensures forall j :: 0 <= j < m ==> key(xs[j]) == i
    ensures m < |xs| ==> key(xs[m]) != i
  {
    if |xs| == 0 || key(xs[0]) != i then 0 else 1 + CountKey(xs[1..], key, i)
  }

  /** In a key-ordered sequence with keys at least `i`, those of key `i`
    * lead, and the rest have larger keys. */
  lemma KeyedPrefix<T>(xs: seq<T>, key: T -> nat, i: nat, m: nat)
    requires m == CountKey(xs, key, i)
    requires forall j :: 0 <= j < |xs| ==> i <= key(xs[j])
    requires forall a, b :: 0 <= a < b < |xs| ==> key(xs[a]) <= key(xs[b])
    ensures Keyed(xs, key, i) == xs[..m]
    ensures forall j :: 0 <= j < |xs[m..]| ==> i + 1 <= key(xs[m..][j])
  {
    TakeDrop(xs, m);
    KeyedAppend(xs[..m], xs[m..], key, i);
    KeyedAll(xs[..m], key, i);
    PastCount(xs, key, i, m);
    KeyedNone(xs[m..], key, i);
    EmptyRight(xs[..m], Keyed(xs[m..], key, i));
  }

  /** Past the leading elements of key `i`, every key is larger. */
  lemma PastCount<T>(xs: seq<T>, key: T -> nat, i: nat, m: nat)
    requires m == CountKey(xs, key, i)
    requires forall j :: 0 <= j < |xs| ==> i <= key(xs[j])
    requires forall a, b :: 0 <= a < b < |xs| ==> key(xs[a]) <= key(xs[b])
    ensures forall j :: 0 <= j < |xs[m..]| ==> i + 1 <= key(xs[m..][j])
  {
    forall j | 0 <= j < |xs[m..]| ensures i + 1 <= key(xs[m..][j]) {
      assert key(xs[m]) <= key(xs[m + j]);
    }
  }

  /** Two elements whose keys are out of order are swapped. */
  lemma GroupedSwap<T>(x: T, y: T, key: T -> nat, n: nat)
    requires key(y) < key(x) < n
    ensures Grouped([x, y], key, 0, n) == [y, x]
  {
    forall k | 0 <= k < n ensures Keyed([x, y], key, k) == Keyed([y, x], key, k) {
      KeyedPair(x, y, key, k);
    }
    GroupedSame([x, y], [y, x], key, 0, n);
    PairSorted(y, x, key, n);
  }

  /** Two elements of different keys are selected alike in either order. */
  lemma KeyedPair<T>(x: T, y: T, key: T -> nat, k: nat)
    requires key(x) != key(y)
    ensures Keyed([x, y], key, k) == Keyed([y, x], key, k)
  {
    assert [x, y] == [x] + [y] && [y, x] == [y] + [x];
    KeyedAppend([x], [y], key, k);
    KeyedAppend([y], [x], key, k);
    KeyedOne(x, key, k);
    KeyedOne(y, key, k);
  }

  /** A pair in key order is its own grouping. */
  lemma PairSorted<T>(y: T, x: T, key: T -> nat, n: nat)
    requires key(y) < key(x) < n
    ensures Grouped([y, x], key, 0, n) == [y, x]
  {
    GroupedSorted([y, x], key, 0, n);
  }

  // ---------------------------------------------------------------------
  // Sequence shapes, stated once for any element type
  // ---------------------------------------------------------------------

  /** Where the `k`th element of a sequence with its `j`th element removed
    * came from: the same place before `j`, one further on after it. */
  lemma RemoveAt<T>(xs: seq<T>, j: nat, k: nat)
    requires j < |xs| && k < |xs| - 1
    ensures (xs[..j] + xs[j + 1..])[k] == if k < j then xs[k] else xs[k + 1]
  {
  }

  lemma SliceMiddle<T>(a: seq<T>, b: seq<T>, c: seq<T>)
    ensures (a + (b + c))[|a|..|a| + |b|] == b
  {
  }

  lemma HeadTail<T>(xs: seq<T>)
    requires |xs| > 0
    ensures xs == [xs[0]] + xs[1..]
  {
  }

  lemma SplitAt<T>(xs: seq<T>, j: nat)
    requires j < |xs|
    ensures xs == xs[..j] + ([xs[j]] + xs[j + 1..])
  {
  }

  lemma TakeDrop<T>(xs: seq<T>, m: nat)
    requires m <= |xs|
    ensures xs == xs[..m] + xs[m..]
  {
  }

  lemma EmptyLeft<T>(a: seq<T>, b: seq<T>)
    requires |a| == 0
    ensures a + b == b
  {
  }

  lemma EmptyRight<T>(a: seq<T>, b: seq<T>)
    requires |b| == 0
    ensures a + b == a
  {
  }

  lemma DropFirst<T>(a: seq<T>, b: seq<T>)
    requires |a| > 0
    ensures (a + b)[1..] == a[1..] + b
  {
  }

  lemma AllButLast<T>(a: seq<T>, b: seq<T>)
    requires |b| > 0
    ensures (a + b)[..|a + b| - 1] == a + b[..|b| - 1]
  {
  }
}
