/**
 * The `Iterables` sequence library. Every PHP iterable (array or generator)
 * is a finite `seq`; laziness is dropped, so a generator and the array it
 * would be collected into are the same value.
 */
module Iterables {
  import opened Wrappers

  // ---------------------------------------------------------------------
  // map / filter
  // ---------------------------------------------------------------------

  /** `map`: the mapper applied to every item, in order. */
  function Map<A, B>(s: seq<A>, f: A --> B): (r: seq<B>)
    requires forall i :: 0 <= i < |s| ==> f.requires(s[i])
    ensures |r| == |s|
    ensures forall i :: 0 <= i < |s| ==> r[i] == f(s[i])
  {
    if |s| == 0 then [] else [f(s[0])] + Map(s[1..], f)
  }

  /** `a` can be obtained from `b` by deleting items (order is kept). */
  predicate IsSubsequence<T(==)>(a: seq<T>, b: seq<T>)
    decreases |b|
  {
    |a| == 0 ||
    (|b| > 0 && ((a[0] == b[0] && IsSubsequence(a[1..], b[1..])) || IsSubsequence(a, b[1..])))
  }

  /** Every sequence is a subsequence of itself. */
  lemma {:induction false} IsSubsequenceReflexive<T>(s: seq<T>)
    ensures IsSubsequence(s, s)
    decreases |s|
  {
    if |s| > 0 {
      IsSubsequenceReflexive(s[1..]);
    }
  }

  /** `filter`: the items satisfying the predicate, in their original order. */
  function Filter<T(==)>(s: seq<T>, p: T -> bool): (r: seq<T>)
    ensures |r| <= |s|
    ensures forall i :: 0 <= i < |r| ==> p(r[i])
    ensures IsSubsequence(r, s)
  {
    if |s| == 0 then []
    else
      var rest := Filter(s[1..], p);
      if p(s[0]) then
        assert ([s[0]] + rest)[1..] == rest;
        [s[0]] + rest
      else
        rest
  }

  /**
   * `filter` drops nothing it should keep: every accepted value occurs in
   * the result as often as in the input, and no rejected value occurs.
   */
  lemma {:induction false} FilterMultiset<T>(s: seq<T>, p: T -> bool)
    ensures forall v :: multiset(Filter(s, p))[v] == if p(v) then multiset(s)[v] else 0
    decreases |s|
  {
    if |s| > 0 {
      FilterMultiset(s[1..], p);
      FilterCons(s, p);
      MultisetCons(s);
      forall v ensures multiset(Filter(s, p))[v] == if p(v) then multiset(s)[v] else 0 {
        assert multiset(Filter(s[1..], p))[v] == if p(v) then multiset(s[1..])[v] else 0;
      }
    }
  }

  lemma MultisetCons<T>(s: seq<T>)
    requires |s| > 0
    ensures multiset(s) == multiset{s[0]} + multiset(s[1..])
  {
    assert s == [s[0]] + s[1..];
  }

  /** One step of `filter`: the head is kept exactly when it is accepted. */
  lemma FilterCons<T>(s: seq<T>, p: T -> bool)
    requires |s| > 0
    ensures multiset(Filter(s, p))
      == (if p(s[0]) then multiset{s[0]} else multiset{}) + multiset(Filter(s[1..], p))
  {
  }

  // ---------------------------------------------------------------------
  // sort
  // ---------------------------------------------------------------------

  predicate Sorted(s: seq<int>) {
    forall i, j :: 0 <= i < j < |s| ==> s[i] <= s[j]
  }

  /** Inserts `x` into an ascending sequence, before the first larger-or-equal item. */
  function Insert(x: int, s: seq<int>): (r: seq<int>)
    requires Sorted(s)
    ensures Sorted(r)
    ensures multiset(r) == multiset(s) + multiset{x}
    ensures |r| == |s| + 1
    ensures r[0] == if |s| == 0 || x <= s[0] then x else s[0]
  {
    if |s| == 0 then [x]
    else if x <= s[0] then
      SortedCons(x, s);
      [x] + s
    else
      MultisetCons(s);
      var rest := Insert(x, s[1..]);
      SortedCons(s[0], rest);
      [s[0]] + rest
  }

  /** An item no larger than the head of an ascending sequence extends it. */
  lemma SortedCons(x: int, s: seq<int>)
    requires Sorted(s) && (|s| == 0 || x <= s[0])
    ensures Sorted([x] + s)
  {
    var r := [x] + s;
    forall i, j | 0 <= i < j < |r| ensures r[i] <= r[j] {
      if i == 0 {
        assert r[j] == s[j - 1];
        assert s[0] <= s[j - 1];
      } else {
        assert r[i] == s[i - 1] && r[j] == s[j - 1];
      }
    }
  }

  /** `sort`: PHP's `sort()` on a list of integers, an ascending permutation. */
  function Sort(s: seq<int>): (r: seq<int>)
    ensures Sorted(r)
    ensures multiset(r) == multiset(s)
    ensures |r| == |s|
  {
    if |s| == 0 then []
    else
      assert s == [s[0]] + s[1..];
      Insert(s[0], Sort(s[1..]))
  }

  /** Two ascending sequences with the same items are equal. */
  lemma {:induction false} SortedPermutationUnique(a: seq<int>, b: seq<int>)
    requires Sorted(a) && Sorted(b)
    requires multiset(a) == multiset(b)
    ensures a == b
    decreases |a|
  {
    SameLength(a, b);
    if |a| > 0 {
      SortedHeads(a, b);
      SameTails(a, b);
      SortedTail(a);
      SortedTail(b);
      SortedPermutationUnique(a[1..], b[1..]);
      SameHeadAndTail(a, b);
    }
  }

  /** Sequences with the same multiset have the same length. */
  lemma SameLength<T>(a: seq<T>, b: seq<T>)
    requires multiset(a) == multiset(b)
    ensures |a| == |b|
  {
    assert |a| == |multiset(a)|;
    assert |b| == |multiset(b)|;
  }

  /** Removing equal heads from two permutations of each other leaves permutations. */
  lemma SameTails<T>(a: seq<T>, b: seq<T>)
    requires |a| > 0 && |b| > 0 && a[0] == b[0]
    requires multiset(a) == multiset(b)
    ensures multiset(a[1..]) == multiset(b[1..])
  {
    MultisetCons(a);
    MultisetCons(b);
    assert multiset(a[1..]) == multiset(a) - multiset{a[0]};
    assert multiset(b[1..]) == multiset(b) - multiset{b[0]};
  }

  /** Sequences that agree on the head and on the tail are equal. */
  lemma SameHeadAndTail<T>(a: seq<T>, b: seq<T>)
    requires |a| > 0 && |b| > 0 && a[0] == b[0] && a[1..] == b[1..]
    ensures a == b
  {
    assert a == [a[0]] + a[1..];
    assert b == [b[0]] + b[1..];
  }

  /** Ascending sequences with the same non-empty multiset start with the same item. */
  lemma SortedHeads(a: seq<int>, b: seq<int>)
    requires Sorted(a) && Sorted(b) && |a| > 0 && |b| > 0
    requires multiset(a) == multiset(b)
    ensures a[0] == b[0]
  {
    assert a[0] in multiset(b);
    assert b[0] in multiset(a);
    SortedHeadIsLeast(a, b[0]);
    SortedHeadIsLeast(b, a[0]);
  }

  /** The tail of an ascending sequence is ascending. */
  lemma SortedTail(a: seq<int>)
    requires Sorted(a) && |a| > 0
    ensures Sorted(a[1..])
  {
    forall i, j | 0 <= i < j < |a| - 1 ensures a[1..][i] <= a[1..][j] {
      assert a[1..][i] == a[i + 1] && a[1..][j] == a[j + 1];
    }
  }

  /** The head of an ascending sequence is no larger than any of its items. */
  lemma SortedHeadIsLeast(a: seq<int>, x: int)
    requires Sorted(a) && x in a
    ensures a[0] <= x
  {
    var k :| 0 <= k < |a| && a[k] == x;
    if k > 0 {
      assert a[0] <= a[k];
    }
  }

  /** `sort` returns the one ascending permutation of its input. */
  lemma SortIsUniqueSortedPermutation(s: seq<int>, t: seq<int>)
    requires Sorted(t) && multiset(s) == multiset(t)
    ensures Sort(s) == t
  {
    SortedPermutationUnique(Sort(s), t);
  }

  /** Sorting only depends on the multiset of the input. */
  lemma SortPermutationInvariant(a: seq<int>, b: seq<int>)
    requires multiset(a) == multiset(b)
    ensures Sort(a) == Sort(b)
  {
    SortedPermutationUnique(Sort(a), Sort(b));
  }

  /** Sorting a sorted list changes nothing; in particular `sort` is idempotent. */
  lemma SortIdempotent(s: seq<int>)
    ensures Sorted(s) ==> Sort(s) == s
    ensures Sort(Sort(s)) == Sort(s)
  {
    if Sorted(s) {
      SortedPermutationUnique(Sort(s), s);
    }
    SortedPermutationUnique(Sort(Sort(s)), Sort(s));
  }

  // ---------------------------------------------------------------------
  // reduce / sum / product / count
  // ---------------------------------------------------------------------

  /**
   * `reduce`: a left fold; the reducer receives the item first and the
   * accumulator second.
   */
  function Reduce<T, A(!new)>(s: seq<T>, init: A, f: (T, A) --> A): A
    requires forall i, acc :: 0 <= i < |s| ==> f.requires(s[i], acc)
  {
    if |s| == 0 then init else Reduce(s[1..], f(s[0], init), f)
  }

  /** Folding a concatenation folds the second part from the first part's result. */
  lemma {:induction false} ReduceAppend<T, A(!new)>(a: seq<T>, b: seq<T>, init: A, f: (T, A) --> A)
    requires forall i, acc :: 0 <= i < |a| ==> f.requires(a[i], acc)
    requires forall i, acc :: 0 <= i < |b| ==> f.requires(b[i], acc)
    ensures forall i, acc :: 0 <= i < |a + b| ==> f.requires((a + b)[i], acc)
    ensures Reduce(a + b, init, f) == Reduce(b, Reduce(a, init, f), f)
    decreases |a|
  {
    assert forall i :: 0 <= i < |a + b| ==> (a + b)[i] == (if i < |a| then a[i] else b[i - |a|]);
    if |a| > 0 {
      assert (a + b)[1..] == a[1..] + b;
      ReduceAppend(a[1..], b, f(a[0], init), f);
    } else {
      assert a + b == b;
    }
  }

  /** The fold step processes the items strictly left to right. */
  lemma ReduceSnoc<T, A(!new)>(s: seq<T>, x: T, init: A, f: (T, A) --> A)
    requires forall i, acc :: 0 <= i < |s| ==> f.requires(s[i], acc)
    requires forall acc :: f.requires(x, acc)
    ensures forall i, acc :: 0 <= i < |s + [x]| ==> f.requires((s + [x])[i], acc)
    ensures Reduce(s + [x], init, f) == f(x, Reduce(s, init, f))
  {
    ReduceAppend(s, [x], init, f);
  }

  function AddStep(v: int, o: int): int { o + v }

  function MulStep(v: int, o: int): int { v * o }

  /** `sum`: reduce with `+` from 0. */
  function Sum(s: seq<int>): int {
    Reduce(s, 0, AddStep)
  }

  /** `product`: reduce with `*` from 1. */
  function Product(s: seq<int>): int {
    Reduce(s, 1, MulStep)
  }

  lemma {:induction false} ReduceAddFrom(s: seq<int>, acc: int)
    ensures Reduce(s, acc, AddStep) == acc + Sum(s)
    decreases |s|
  {
    if |s| > 0 {
      ReduceAddFrom(s[1..], acc + s[0]);
      ReduceAddFrom(s[1..], s[0]);
    }
  }

  lemma {:induction false} ReduceMulFrom(s: seq<int>, acc: int)
    ensures Reduce(s, acc, MulStep) == acc * Product(s)
    decreases |s|
  {
    if |s| > 0 {
      ReduceMulFrom(s[1..], s[0] * acc);
      ReduceMulFrom(s[1..], s[0]);
    }
  }

  /** `sum` is 0 on no items, the item on one, and adds across a concatenation. */
  lemma SumAppend(a: seq<int>, b: seq<int>)
    ensures Sum([]) == 0
    ensures forall x :: Sum([x]) == x
    ensures Sum(a + b) == Sum(a) + Sum(b)
  {
    ReduceAppend(a, b, 0, AddStep);
    ReduceAddFrom(b, Sum(a));
    forall x ensures Sum([x]) == x {
      assert [x][1..] == [];
      assert Sum([x]) == Reduce([], AddStep(x, 0), AddStep);
    }
  }

  /** `product` is 1 on no items, the item on one, and multiplies across a concatenation. */
  lemma ProductAppend(a: seq<int>, b: seq<int>)
    ensures Product([]) == 1
    ensures forall x :: Product([x]) == x
    ensures Product(a + b) == Product(a) * Product(b)
  {
    ReduceAppend(a, b, 1, MulStep);
    ReduceMulFrom(b, Product(a));
    forall x ensures Product([x]) == x {
      assert [x][1..] == [];
      assert Product([x]) == Reduce([], MulStep(x, 1), MulStep);
    }
  }

  /** The sum of non-negative items is non-negative. */
  lemma {:induction false} SumNonNegative(s: seq<int>)
    requires forall i :: 0 <= i < |s| ==> s[i] >= 0
    ensures Sum(s) >= 0
    decreases |s|
  {
    if |s| > 0 {
      assert s == [s[0]] + s[1..];
      SumAppend([s[0]], s[1..]);
      SumNonNegative(s[1..]);
    }
  }

  /** Pointwise smaller items give a smaller sum. */
  lemma {:induction false} SumMonotone(a: seq<int>, b: seq<int>)
    requires |a| == |b|
    requires forall i :: 0 <= i < |a| ==> a[i] <= b[i]
    ensures Sum(a) <= Sum(b)
    decreases |a|
  {
    if |a| > 0 {
      assert a == [a[0]] + a[1..];
      assert b == [b[0]] + b[1..];
      SumAppend([a[0]], a[1..]);
      SumAppend([b[0]], b[1..]);
      SumMonotone(a[1..], b[1..]);
    }
  }

  function CountStep<T>(p: T -> bool): (T, int) -> int {
    (x: T, o: int) => o + (if p(x) then 1 else 0)
  }

  /** `count`: reduce from 0, adding one for every item the predicate accepts. */
  function Count<T>(s: seq<T>, p: T -> bool): int {
    Reduce(s, 0, CountStep(p))
  }

  lemma {:induction false} CountFrom<T>(s: seq<T>, p: T -> bool, acc: int)
    ensures Reduce(s, acc, CountStep(p)) == acc + |Filter(s, p)|
    decreases |s|
  {
    if |s| > 0 {
      CountFrom(s[1..], p, CountStep(p)(s[0], acc));
    }
  }

  /** `count(s, p)` is the length of `filter(s, p)`, hence at most `|s|`. */
  lemma CountIsFilterLength<T>(s: seq<T>, p: T -> bool)
    ensures Count(s, p) == |Filter(s, p)|
    ensures 0 <= Count(s, p) <= |s|
  {
    CountFrom(s, p, 0);
  }

  /** A weaker predicate never counts fewer items. */
  lemma {:induction false} CountMonotone<T>(s: seq<T>, p: T -> bool, q: T -> bool)
    requires forall i :: 0 <= i < |s| && p(s[i]) ==> q(s[i])
    ensures Count(s, p) <= Count(s, q)
    decreases |s|
  {
    CountIsFilterLength(s, p);
    CountIsFilterLength(s, q);
    if |s| > 0 {
      CountMonotone(s[1..], p, q);
      CountIsFilterLength(s[1..], p);
      CountIsFilterLength(s[1..], q);
    }
  }

  function IsEqualTo(v: int): int -> bool {
    (x: int) => x == v
  }

  /** Counting the items equal to `v` gives the multiplicity of `v`. */
  lemma {:induction false} CountEqualIsMultiplicity(s: seq<int>, v: int)
    ensures Count(s, IsEqualTo(v)) == multiset(s)[v]
    decreases |s|
  {
    CountIsFilterLength(s, IsEqualTo(v));
    if |s| > 0 {
      CountEqualIsMultiplicity(s[1..], v);
      CountIsFilterLength(s[1..], IsEqualTo(v));
      assert s == [s[0]] + s[1..];
      assert multiset(s) == multiset{s[0]} + multiset(s[1..]);
    }
  }

  // ---------------------------------------------------------------------
  // zip / unzip
  // ---------------------------------------------------------------------

  /**
   * `zip`: a MultipleIterator in need-all mode, so it stops when either
   * input runs out; each item is the two-element list `[a[i], b[i]]`.
   */
  function Zip<T>(a: seq<T>, b: seq<T>): (r: seq<seq<T>>)
    ensures |r| == (if |a| <= |b| then |a| else |b|)
    ensures forall i :: 0 <= i < |r| ==> r[i] == [a[i], b[i]]
  {
    if |a| == 0 || |b| == 0 then [] else [[a[0], b[0]]] + Zip(a[1..], b[1..])
  }

  function UnzipStep<T(!new)>(row: seq<T>, lists: (seq<T>, seq<T>)): (seq<T>, seq<T>)
    requires |row| >= 2
  {
    (lists.0 + [row[0]], lists.1 + [row[1]])
  }

  lemma {:induction false} UnzipFrom<T(!new)>(rows: seq<seq<T>>, lists: (seq<T>, seq<T>))
    requires forall i :: 0 <= i < |rows| ==> |rows[i]| >= 2
    ensures var r := Reduce(rows, lists, UnzipStep);
      && |r.0| == |lists.0| + |rows| && |r.1| == |lists.1| + |rows|
      && r.0[..|lists.0|] == lists.0 && r.1[..|lists.1|] == lists.1
      && (forall i :: 0 <= i < |rows| ==> r.0[|lists.0| + i] == rows[i][0])
      && (forall i :: 0 <= i < |rows| ==> r.1[|lists.1| + i] == rows[i][1])
    decreases |rows|
  {
    if |rows| > 0 {
      var next := UnzipStep(rows[0], lists);
      UnzipFrom(rows[1..], next);
      var r := Reduce(rows, lists, UnzipStep);
      assert r == Reduce(rows[1..], next, UnzipStep);
      assert r.0[..|next.0|][..|lists.0|] == r.0[..|lists.0|];
      assert r.1[..|next.1|][..|lists.1|] == r.1[..|lists.1|];
      forall i | 0 <= i < |rows|
        ensures r.0[|lists.0| + i] == rows[i][0] && r.1[|lists.1| + i] == rows[i][1]
      {
        if i == 0 {
          assert r.0[|lists.0|] == r.0[..|next.0|][|lists.0|];
          assert r.1[|lists.1|] == r.1[..|next.1|][|lists.1|];
        } else {
          assert rows[i] == rows[1..][i - 1];
        }
      }
    }
  }

  /**
   * `unzip`: a reduce from two empty lists that appends entry 0 of each row
   * to the first list and entry 1 to the second.
   */
  function Unzip<T(!new)>(rows: seq<seq<T>>): (r: (seq<T>, seq<T>))
    requires forall i :: 0 <= i < |rows| ==> |rows[i]| >= 2
    ensures |r.0| == |rows| && |r.1| == |rows|
    ensures forall i :: 0 <= i < |rows| ==> r.0[i] == rows[i][0] && r.1[i] == rows[i][1]
  {
    UnzipFrom(rows, ([], []));
    Reduce(rows, ([], []), UnzipStep)
  }

  /** Unzipping a zip recovers both inputs, cut to the shorter length. */
  lemma UnzipZip<T(!new)>(a: seq<T>, b: seq<T>)
    ensures var m := if |a| <= |b| then |a| else |b|;
      Unzip(Zip(a, b)) == (a[..m], b[..m])
  {
    var m := if |a| <= |b| then |a| else |b|;
    var u := Unzip(Zip(a, b));
    assert u.0 == a[..m];
    assert u.1 == b[..m];
  }

  /** Zipping the two halves of an unzip of pairs gives the pairs back. */
  lemma ZipUnzip<T(!new)>(rows: seq<seq<T>>)
    requires forall i :: 0 <= i < |rows| ==> |rows[i]| == 2
    ensures Zip(Unzip(rows).0, Unzip(rows).1) == rows
  {
    var z := Zip(Unzip(rows).0, Unzip(rows).1);
    forall i | 0 <= i < |rows| ensures z[i] == rows[i] {
      assert rows[i] == [rows[i][0], rows[i][1]];
    }
  }

  // ---------------------------------------------------------------------
  // reverse
  // ---------------------------------------------------------------------

  /** `reverse`: materialise the items and yield them back to front. */
  function Reverse<T>(s: seq<T>): (r: seq<T>)
    ensures |r| == |s|
    ensures forall i :: 0 <= i < |s| ==> r[i] == s[|s| - 1 - i]
  {
    if |s| == 0 then [] else Reverse(s[1..]) + [s[0]]
  }

  /** Reversing twice restores the original order. */
  lemma ReverseInvolution<T>(s: seq<T>)
    ensures Reverse(Reverse(s)) == s
  {
  }

  // ---------------------------------------------------------------------
  // chunkEvery
  // ---------------------------------------------------------------------

  /**
   * The `foreach` loop of `chunkEvery`, on the items still to come, with
   * its two carry buffers `output` and `prevs`. When `output` is full on
   * arrival of an item it is yielded and replaced by `prevs`; an item is
   * also copied to `prevs` when, once appended, `output` holds more than
   * `step` items. After the loop a full `output` is yielded once more.
   */
  function ChunkLoop<T>(rest: seq<T>, count: int, step: int, output: seq<T>, prevs: seq<T>): (r: seq<seq<T>>)
    ensures forall i :: 0 <= i < |r| ==> |r[i]| == count
    decreases |rest|
  {
    if |rest| == 0 then
      (if |output| == count then [output] else [])
    else
      var full := |output| == count;
      var emitted := if full then [output] else [];
      var output1 := (if full then prevs else output) + [rest[0]];
      var prevs0 := if full then [] else prevs;
      var prevs1 := if |output1| > step then prevs0 + [rest[0]] else prevs0;
      emitted + ChunkLoop(rest[1..], count, step, output1, prevs1)
  }

  /** `chunkEvery`: only ever yields chunks of exactly `count` items. */
  function ChunkEvery<T>(s: seq<T>, count: int, step: int): (r: seq<seq<T>>)
    ensures forall i :: 0 <= i < |r| ==> |r[i]| == count
  {
    ChunkLoop(s, count, step, [], [])
  }

  /** Reference sliding window: one window of `count` items at every multiple of `step`. */
  function Windows<T>(s: seq<T>, count: int, step: int): seq<seq<T>>
    requires 1 <= step <= count
    decreases |s|
  {
    if |s| < count then [] else [s[..count]] + Windows(s[step..], count, step)
  }

  lemma {:induction false} ChunkLoopWindows<T>(rest: seq<T>, count: int, step: int, output: seq<T>, prevs: seq<T>)
    requires 1 <= step <= count <= 2 * step
    requires |output| <= count
    requires prevs == if |output| > step then output[step..] else []
    ensures ChunkLoop(rest, count, step, output, prevs) == Windows(output + rest, count, step)
    decreases |rest|, 1
  {
    if |rest| == 0 {
      assert output + rest == output;
    } else if |output| == count {
      ChunkLoopWindowsFull(rest, count, step, output, prevs);
    } else {
      ChunkLoopWindowsGrow(rest, count, step, output, prevs);
    }
  }

  /** A step of the loop on which `output` is not full yet: the item is appended. */
  lemma {:induction false} ChunkLoopWindowsGrow<T>(rest: seq<T>, count: int, step: int, output: seq<T>, prevs: seq<T>)
    requires 1 <= step <= count <= 2 * step
    requires |output| < count && |rest| > 0
    requires prevs == if |output| > step then output[step..] else []
    ensures ChunkLoop(rest, count, step, output, prevs) == Windows(output + rest, count, step)
    decreases |rest|, 0
  {
    var x := rest[0];
    var tail := rest[1..];
    var o1 := output + [x];
    var p1 := if |output| + 1 > step then prevs + [x] else prevs;
    ChunkLoopGrowStep(rest, count, step, output, prevs);
    PrevsGrow(output, x, step, prevs);
    ChunkLoopWindows(tail, count, step, o1, p1);
    AppendShift(output, rest);
  }

  /** Moving the first item of `rest` onto `output` keeps the concatenation. */
  lemma AppendShift<T>(output: seq<T>, rest: seq<T>)
    requires |rest| > 0
    ensures output + [rest[0]] + rest[1..] == output + rest
  {
    assert rest == [rest[0]] + rest[1..];
  }

  /** Unfolds one iteration of the loop on which `output` is not full. */
  lemma ChunkLoopGrowStep<T>(rest: seq<T>, count: int, step: int, output: seq<T>, prevs: seq<T>)
    requires |output| != count && |rest| > 0
    ensures ChunkLoop(rest, count, step, output, prevs)
      == ChunkLoop(rest[1..], count, step, output + [rest[0]],
                   if |output| + 1 > step then prevs + [rest[0]] else prevs)
  {
  }

  /** Appending an item keeps `prevs` the part of `output` past `step`. */
  lemma PrevsGrow<T>(output: seq<T>, x: T, step: int, prevs: seq<T>)
    requires 1 <= step
    requires prevs == if |output| > step then output[step..] else []
    ensures (if |output| + 1 > step then prevs + [x] else prevs)
      == if |output + [x]| > step then (output + [x])[step..] else []
  {
    if |output| > step {
      assert (output + [x])[step..] == output[step..] + [x];
    } else if |output| == step {
      assert (output + [x])[step..] == [x];
    }
  }

  /** The step of the loop on which the full `output` is yielded. */
  lemma {:induction false} ChunkLoopWindowsFull<T>(rest: seq<T>, count: int, step: int, output: seq<T>, prevs: seq<T>)
    requires 1 <= step <= count <= 2 * step
    requires |output| == count && |rest| > 0
    requires prevs == if |output| > step then output[step..] else []
    ensures ChunkLoop(rest, count, step, output, prevs) == Windows(output + rest, count, step)
    decreases |rest|, 0
  {
    var x := rest[0];
    var o1 := output[step..] + [x];
    var p1: seq<T> := if |o1| > step then [x] else [];
    ChunkLoopFullStep(rest, count, step, output, prevs);
    ChunkLoopWindows(rest[1..], count, step, o1, p1);
    WindowsFullStep(output, rest, count, step);
  }

  /** Unfolds one iteration of the loop on which `output` is full. */
  lemma ChunkLoopFullStep<T>(rest: seq<T>, count: int, step: int, output: seq<T>, prevs: seq<T>)
    requires 1 <= step <= count <= 2 * step
    requires |output| == count && |rest| > 0
    requires prevs == if |output| > step then output[step..] else []
    ensures var o1 := output[step..] + [rest[0]];
      ChunkLoop(rest, count, step, output, prevs)
      == [output] + ChunkLoop(rest[1..], count, step, o1, if |o1| > step then [rest[0]] else [])
  {
    assert prevs == output[step..];
    assert [] + [rest[0]] == [rest[0]];
  }

  /** The reference windows begin with the full `output`, then slide by `step`. */
  lemma WindowsFullStep<T>(output: seq<T>, rest: seq<T>, count: int, step: int)
    requires 1 <= step <= count
    requires |output| == count && |rest| > 0
    ensures Windows(output + rest, count, step)
      == [output] + Windows(output[step..] + [rest[0]] + rest[1..], count, step)
  {
    var all := output + rest;
    assert all[..count] == output;
    assert all[step..] == output[step..] + [rest[0]] + rest[1..];
  }

  /**
   * When `step <= count <= 2 * step`, `chunkEvery` is the sliding window:
   * the windows start at every multiple of `step`, a trailing partial
   * window is dropped.
   */
  lemma ChunkEveryIsSlidingWindow<T>(s: seq<T>, count: int, step: int)
    requires 1 <= step <= count <= 2 * step
    ensures ChunkEvery(s, count, step) == Windows(s, count, step)
  {
    ChunkLoopWindows(s, count, step, [], []);
    assert [] + s == s;
  }

  /** For `(count, step) = (2, 1)` the chunks are exactly the adjacent pairs. */
  lemma {:induction false} ChunkEveryPairs<T>(s: seq<T>)
    ensures |ChunkEvery(s, 2, 1)| == (if |s| >= 1 then |s| - 1 else 0)
    ensures forall i :: 0 <= i < |ChunkEvery(s, 2, 1)| ==> ChunkEvery(s, 2, 1)[i] == [s[i], s[i + 1]]
  {
    ChunkEveryIsSlidingWindow(s, 2, 1);
    WindowsPairs(s);
  }

  lemma {:induction false} WindowsPairs<T>(s: seq<T>)
    ensures |Windows(s, 2, 1)| == (if |s| >= 1 then |s| - 1 else 0)
    ensures forall i :: 0 <= i < |Windows(s, 2, 1)| ==> Windows(s, 2, 1)[i] == [s[i], s[i + 1]]
    decreases |s|
  {
    if |s| >= 2 {
      WindowsPairs(s[1..]);
      assert s[..2] == [s[0], s[1]];
    }
  }

  /**
   * With a window longer than twice the step the carry loses items: for
   * count 3 and step 1 on five items only the first two windows come out.
   */
  lemma ChunkEveryLongWindowSkips<T>(a: T, b: T, c: T, d: T, e: T)
    ensures ChunkEvery([a, b, c, d, e], 3, 1) == [[a, b, c], [b, c, d]]
  {
    LongWindowTail(a, b, c, d, e);
    assert ChunkLoop([c, d, e], 3, 1, [a, b], [b]) == [[a, b, c], [b, c, d]] by {
      assert [a, b] + [c] == [a, b, c] && [b] + [c] == [b, c] && [c, d, e][1..] == [d, e];
    }
    assert ChunkLoop([b, c, d, e], 3, 1, [a], []) == [[a, b, c], [b, c, d]] by {
      assert [a] + [b] == [a, b] && [] + [b] == [b] && [b, c, d, e][1..] == [c, d, e];
    }
    assert [] + [a] == [a] && [a, b, c, d, e][1..] == [b, c, d, e];
  }

  /** The last two items of the five: `output` is full twice, `prevs` has lost `b`. */
  lemma LongWindowTail<T>(a: T, b: T, c: T, d: T, e: T)
    ensures ChunkLoop([d, e], 3, 1, [a, b, c], [b, c]) == [[a, b, c], [b, c, d]]
  {
    assert ChunkLoop([e], 3, 1, [b, c, d], [d]) == [[b, c, d]] by {
      assert [d] + [e] == [d, e] && [] + [e] == [e] && [e][1..] == [];
    }
    assert [b, c] + [d] == [b, c, d] && [] + [d] == [d] && [d, e][1..] == [e];
  }

  /**
   * With a step longer than the window no item is skipped: for count 2 and
   * step 3 on four items the chunks are consecutive.
   */
  lemma ChunkEveryLongStepDoesNotSkip<T>(a: T, b: T, c: T, d: T)
    ensures ChunkEvery([a, b, c, d], 2, 3) == [[a, b], [c, d]]
  {
    assert ChunkLoop([d], 2, 3, [c], []) == [[c, d]] by {
      assert [c] + [d] == [c, d] && [d][1..] == [];
    }
    assert ChunkLoop([c, d], 2, 3, [a, b], []) == [[a, b], [c, d]] by {
      assert [] + [c] == [c] && [c, d][1..] == [d];
    }
    assert ChunkLoop([b, c, d], 2, 3, [a], []) == [[a, b], [c, d]] by {
      assert [a] + [b] == [a, b] && [b, c, d][1..] == [c, d];
    }
    assert [] + [a] == [a] && [a, b, c, d][1..] == [b, c, d];
  }

  // ---------------------------------------------------------------------
  // all / any
  // ---------------------------------------------------------------------

  /** `all`: true when every item satisfies the predicate (so true on no items). */
  function All<T>(s: seq<T>, p: T -> bool): (r: bool)
    ensures r <==> forall i :: 0 <= i < |s| ==> p(s[i])
  {
    if |s| == 0 then true else if !p(s[0]) then false else All(s[1..], p)
  }

  /** `any`: true when some item satisfies the predicate (so false on no items). */
  function Any<T>(s: seq<T>, p: T -> bool): (r: bool)
    ensures r <==> exists i :: 0 <= i < |s| && p(s[i])
  {
    if |s| == 0 then false else if p(s[0]) then true else Any(s[1..], p)
  }

  function Not<T>(p: T -> bool): T -> bool {
    (x: T) => !p(x)
  }

  /** `any` and `all` are dual. */
  lemma AnyIsNotAllNot<T>(s: seq<T>, p: T -> bool)
    ensures Any(s, p) == !All(s, Not(p))
    ensures All(s, p) == !Any(s, Not(p))
  {
  }

  /**
   * The `foreach` of `all` with its early return; `calls` counts the
   * predicate invocations, so the scan stops at the first failing item.
   */
  method AllScan<T>(s: seq<T>, p: T -> bool) returns (r: bool, calls: nat)
    ensures r == All(s, p)
    ensures calls <= |s|
    ensures r ==> calls == |s|
    ensures !r ==> calls >= 1 && !p(s[calls - 1]) && forall i :: 0 <= i < calls - 1 ==> p(s[i])
  {
    calls := 0;
    while calls < |s|
      invariant calls <= |s|
      invariant forall i :: 0 <= i < calls ==> p(s[i])
    {
      calls := calls + 1;
      if !p(s[calls - 1]) {
        return false, calls;
      }
    }
    return true, calls;
  }

  /**
   * The `foreach` of `any` with its early return; `calls` counts the
   * predicate invocations, so the scan stops at the first accepted item.
   */
  method AnyScan<T>(s: seq<T>, p: T -> bool) returns (r: bool, calls: nat)
    ensures r == Any(s, p)
    ensures calls <= |s|
    ensures !r ==> calls == |s|
    ensures r ==> calls >= 1 && p(s[calls - 1]) && forall i :: 0 <= i < calls - 1 ==> !p(s[i])
  {
    calls := 0;
    while calls < |s|
      invariant calls <= |s|
      invariant forall i :: 0 <= i < calls ==> !p(s[i])
    {
      calls := calls + 1;
      if p(s[calls - 1]) {
        return true, calls;
      }
    }
    return false, calls;
  }

  // ---------------------------------------------------------------------
  // withIndex / removeAt / first
  // ---------------------------------------------------------------------

  function WithIndexFrom<T>(s: seq<T>, start: int): (r: seq<(int, T)>)
    ensures |r| == |s|
    ensures forall k :: 0 <= k < |s| ==> r[k] == (start + k, s[k])
  {
    if |s| == 0 then [] else [(start, s[0])] + WithIndexFrom(s[1..], start + 1)
  }

  /** `withIndex`: every item paired with its position, counting from 0. */
  function WithIndex<T>(s: seq<T>): (r: seq<(int, T)>)
    ensures |r| == |s|
    ensures forall k :: 0 <= k < |s| ==> r[k] == (k, s[k])
  {
    WithIndexFrom(s, 0)
  }

  /**
   * `removeAt`: `unset` of the key followed by `array_values`; an index
   * that is not a key leaves the list as it was.
   */
  function RemoveAt<T>(s: seq<T>, index: int): (r: seq<T>)
    ensures 0 <= index < |s| ==> |r| == |s| - 1
    ensures 0 <= index < |s| ==> forall k :: 0 <= k < index ==> r[k] == s[k]
    ensures 0 <= index < |s| ==> forall k :: index <= k < |r| ==> r[k] == s[k + 1]
    ensures !(0 <= index < |s|) ==> r == s
  {
    if 0 <= index < |s| then s[..index] + s[index + 1..] else s
  }

  /** Removing one item removes exactly that item from the multiset. */
  lemma RemoveAtMultiset<T>(s: seq<T>, index: int)
    requires 0 <= index < |s|
    ensures multiset(RemoveAt(s, index)) + multiset{s[index]} == multiset(s)
  {
    assert s == s[..index] + [s[index]] + s[index + 1..];
  }

  /** `first`: the first item; `None` is the `OutOfBoundsException` on no items. */
  function First<T>(s: seq<T>): (r: Option<T>)
    ensures r.None? <==> |s| == 0
    ensures r.Some? ==> r.value == s[0]
  {
    if |s| == 0 then None else Some(s[0])
  }
}
