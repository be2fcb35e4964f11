/**
 * Day 1, "Historian Hysteria": two columns of location ids, compared by
 * distance after sorting (`diff`) and by a similarity score (`similarity`).
 */
module HistorianHysteria {
  import opened Iterables
  import opened Strings
  import opened Samples

  function Abs(x: int): nat {
    if x < 0 then -x else x
  }

  /** `abs($values[0] - $values[1])` on one zipped pair. */
  function PairDistance(pair: seq<int>): (d: int)
    requires |pair| >= 2
    ensures d >= 0
    ensures d == pair[0] - pair[1] || d == pair[1] - pair[0]
  {
    Abs(pair[0] - pair[1])
  }

  /** The distances of two lists zipped position by position; the longer list's tail is ignored. */
  function Distances(a: seq<int>, b: seq<int>): (r: seq<int>)
    ensures |r| == (if |a| <= |b| then |a| else |b|)
    ensures forall i :: 0 <= i < |r| ==> r[i] == Abs(a[i] - b[i])
  {
    Map(Zip(a, b), PairDistance)
  }

  /**
   * `diff`: sort both columns, pair them up position by position and take
   * the distance of every pair.
   */
  function Diff(columns: (seq<int>, seq<int>)): (r: seq<int>)
    ensures |r| == (if |columns.0| <= |columns.1| then |columns.0| else |columns.1|)
    ensures forall i :: 0 <= i < |r| ==> r[i] >= 0
  {
    Distances(Sort(columns.0), Sort(columns.1))
  }

  /** Distances pair the i-th smallest of one column with the i-th smallest of the other. */
  lemma {:induction false} DiffPairsRanks(columns: (seq<int>, seq<int>))
    ensures forall i :: 0 <= i < |Diff(columns)| ==>
      Diff(columns)[i] == PairDistance([Sort(columns.0)[i], Sort(columns.1)[i]])
  {
    assert Diff(columns) == Distances(Sort(columns.0), Sort(columns.1));
  }

  /**
   * Reordering either column changes nothing: `diff` only depends on the
   * multisets of the columns, and so does its sum.
   */
  lemma DiffOrderIndependent(columns: (seq<int>, seq<int>), shuffled: (seq<int>, seq<int>))
    requires multiset(columns.0) == multiset(shuffled.0)
    requires multiset(columns.1) == multiset(shuffled.1)
    ensures Diff(columns) == Diff(shuffled)
    ensures Sum(Diff(columns)) == Sum(Diff(shuffled))
  {
    SortPermutationInvariant(columns.0, shuffled.0);
    SortPermutationInvariant(columns.1, shuffled.1);
  }

  /** When one column is a permutation of the other, every distance is zero. */
  lemma DiffZeroOnPermutation(columns: (seq<int>, seq<int>))
    requires multiset(columns.0) == multiset(columns.1)
    ensures forall i :: 0 <= i < |Diff(columns)| ==> Diff(columns)[i] == 0
    ensures Sum(Diff(columns)) == 0
  {
    SortPermutationInvariant(columns.0, columns.1);
    var d := Diff(columns);
    assert forall i :: 0 <= i < |d| ==> d[i] == 0;
    SumOfZeros(d);
  }

  lemma {:induction false} SumOfZeros(s: seq<int>)
    requires forall i :: 0 <= i < |s| ==> s[i] == 0
    ensures Sum(s) == 0
    decreases |s|
  {
    if |s| > 0 {
      assert s == [s[0]] + s[1..];
      SumAppend([s[0]], s[1..]);
      SumOfZeros(s[1..]);
    }
  }

  /** The score of one left value: the value times its occurrences in the right column. */
  function Score(list2: seq<int>): int -> int {
    (v: int) => v * Count(list2, IsEqualTo(v))
  }

  /** `similarity`: one score per left value, in the order of the left column. */
  function Similarity(columns: (seq<int>, seq<int>)): (r: seq<int>)
    ensures |r| == |columns.0|
  {
    Map(columns.0, Score(columns.1))
  }

  /**
   * Each score is the left value times its multiplicity in the right
   * column, hence 0 when the value does not occur there.
   */
  lemma SimilarityIsMultiplicity(columns: (seq<int>, seq<int>))
    ensures forall i :: 0 <= i < |columns.0| ==>
      Similarity(columns)[i] == columns.0[i] * multiset(columns.1)[columns.0[i]]
    ensures forall i :: 0 <= i < |columns.0| && columns.0[i] !in columns.1 ==>
      Similarity(columns)[i] == 0
  {
    forall i | 0 <= i < |columns.0|
      ensures Similarity(columns)[i] == columns.0[i] * multiset(columns.1)[columns.0[i]]
    {
      CountEqualIsMultiplicity(columns.1, columns.0[i]);
    }
  }

  /** The left column of the example of the puzzle statement, `3 4 2 1 3 3`. */
  predicate ExampleLeft(l: seq<int>) {
    |l| == 6 && l[0] == 3 && l[1] == 4 && l[2] == 2 && l[3] == 1 && l[4] == 3 && l[5] == 3
  }

  /** The right column of the example, `4 3 5 3 9 3`. */
  predicate ExampleRight(l: seq<int>) {
    |l| == 6 && l[0] == 4 && l[1] == 3 && l[2] == 5 && l[3] == 3 && l[4] == 9 && l[5] == 3
  }

  /** The example of the puzzle statement: total distance 11. */
  lemma ExampleDiff(l1: seq<int>, l2: seq<int>)
    requires ExampleLeft(l1) && ExampleRight(l2)
    ensures Sum(Diff((l1, l2))) == 11
  {
    var t1 := ExampleSortedLeft(l1);
    var t2 := ExampleSortedRight(l2);
    DiffPairsRanks((l1, l2));
    var d := Diff((l1, l2));
    assert d[0] == 2 && d[1] == 1 && d[2] == 0 && d[3] == 1 && d[4] == 2 && d[5] == 5;
    SumSix(d);
  }

  /** The left example column sorts to `1 2 3 3 3 4`. */
  lemma ExampleSortedLeft(l1: seq<int>) returns (t: seq<int>)
    requires ExampleLeft(l1)
    ensures Sort(l1) == t
    ensures |t| == 6 && t[0] == 1 && t[1] == 2 && t[2] == 3 && t[3] == 3 && t[4] == 3 && t[5] == 4
  {
    t := ExampleLeftReordered(l1);
    SortIsUniqueSortedPermutation(l1, t);
  }

  lemma ExampleLeftReordered(l1: seq<int>) returns (t: seq<int>)
    requires ExampleLeft(l1)
    ensures multiset(l1) == multiset(t) && Sorted(t)
    ensures |t| == 6 && t[0] == 1 && t[1] == 2 && t[2] == 3 && t[3] == 3 && t[4] == 3 && t[5] == 4
  {
    t := [l1[3], l1[2], l1[0], l1[4], l1[5], l1[1]];
    SortedSix(t);
    SixItems(l1);
    SixItems(t);
  }

  /** The right example column sorts to `3 3 3 4 5 9`. */
  lemma ExampleSortedRight(l2: seq<int>) returns (t: seq<int>)
    requires ExampleRight(l2)
    ensures Sort(l2) == t
    ensures |t| == 6 && t[0] == 3 && t[1] == 3 && t[2] == 3 && t[3] == 4 && t[4] == 5 && t[5] == 9
  {
    t := ExampleRightReordered(l2);
    SortIsUniqueSortedPermutation(l2, t);
  }

  lemma ExampleRightReordered(l2: seq<int>) returns (t: seq<int>)
    requires ExampleRight(l2)
    ensures multiset(l2) == multiset(t) && Sorted(t)
    ensures |t| == 6 && t[0] == 3 && t[1] == 3 && t[2] == 3 && t[3] == 4 && t[4] == 5 && t[5] == 9
  {
    t := [l2[1], l2[3], l2[5], l2[0], l2[2], l2[4]];
    SortedSix(t);
    SixItems(l2);
    SixItems(t);
  }

  /** The items of a six-item list, one by one. */
  lemma SixItems(s: seq<int>)
    requires |s| == 6
    ensures multiset(s)
      == multiset{s[0]} + multiset{s[1]} + multiset{s[2]} + multiset{s[3]} + multiset{s[4]} + multiset{s[5]}
  {
    var s1, s2, s3, s4, s5 := s[1..], s[2..], s[3..], s[4..], s[5..];
    MultisetCons(s);
    assert s1[1..] == s2;
    MultisetCons(s1);
    assert s2[1..] == s3;
    MultisetCons(s2);
    assert s3[1..] == s4;
    MultisetCons(s3);
    assert s4[1..] == s5;
    MultisetCons(s4);
    assert s5 == [s[5]];
  }

  lemma SortedSix(t: seq<int>)
    requires |t| == 6 && t[0] <= t[1] <= t[2] <= t[3] <= t[4] <= t[5]
    ensures Sorted(t)
  {
  }

  /** The example of the puzzle statement: total similarity 31. */
  lemma ExampleSimilarity(l1: seq<int>, l2: seq<int>)
    requires ExampleLeft(l1) && ExampleRight(l2)
    ensures Sum(Similarity((l1, l2))) == 31
  {
    SimilarityIsMultiplicity((l1, l2));
    RightMultiplicities(l2);
    var sim := Similarity((l1, l2));
    assert sim[0] == 9 && sim[1] == 4 && sim[2] == 0 && sim[3] == 0 && sim[4] == 9 && sim[5] == 9;
    SumSix(sim);
  }

  lemma RightMultiplicities(l2: seq<int>)
    requires ExampleRight(l2)
    ensures multiset(l2)[3] == 3 && multiset(l2)[4] == 1 && multiset(l2)[2] == 0 && multiset(l2)[1] == 0
  {
    SixItems(l2);
  }

  // ---------------------------------------------------------------------
  // the input pipeline
  // ---------------------------------------------------------------------

  /**
   * The two columns: `unzip` of the parsed lines. The input is well formed
   * when every token is decimal and every line has at least two of them,
   * as `unzip` reads entries 0 and 1.
   */
  function Columns(lines: seq<string>): (columns: (seq<int>, seq<int>))
    requires forall i :: 0 <= i < |lines| ==> DecimalTokens(Split(lines[i], " ", true, true))
    requires forall i :: 0 <= i < |lines| ==> |Split(lines[i], " ", true, true)| >= 2
    ensures |columns.0| == |lines| && |columns.1| == |lines|
  {
    Unzip(ParseLines(lines))
  }

  /** Column k holds entry k of every line, in line order. */
  lemma ColumnsAreLineEntries(lines: seq<string>)
    requires forall i :: 0 <= i < |lines| ==> DecimalTokens(Split(lines[i], " ", true, true))
    requires forall i :: 0 <= i < |lines| ==> |Split(lines[i], " ", true, true)| >= 2
    ensures forall i :: 0 <= i < |lines| ==>
      (|ParseRow(lines[i])| >= 2
       && Columns(lines).0[i] == ParseRow(lines[i])[0]
       && Columns(lines).1[i] == ParseRow(lines[i])[1])
  {
    var rows := ParseLines(lines);
    var c := Columns(lines);
    assert c == Unzip(rows);
    forall i | 0 <= i < |lines|
      ensures |ParseRow(lines[i])| >= 2 && c.0[i] == ParseRow(lines[i])[0] && c.1[i] == ParseRow(lines[i])[1]
    {
      assert rows[i] == ParseRow(lines[i]);
      assert c.0[i] == rows[i][0];
      assert c.1[i] == rows[i][1];
    }
  }

  /** Part 1: the total distance, never negative. */
  function Part1(lines: seq<string>): (total: int)
    requires forall i :: 0 <= i < |lines| ==> DecimalTokens(Split(lines[i], " ", true, true))
    requires forall i :: 0 <= i < |lines| ==> |Split(lines[i], " ", true, true)| >= 2
    ensures total >= 0
  {
    var d := Diff(Columns(lines));
    SumNonNegative(d);
    Sum(d)
  }

  /** Part 2: the total similarity score. */
  function Part2(lines: seq<string>): int
    requires forall i :: 0 <= i < |lines| ==> DecimalTokens(Split(lines[i], " ", true, true))
    requires forall i :: 0 <= i < |lines| ==> |Split(lines[i], " ", true, true)| >= 2
  {
    Sum(Similarity(Columns(lines)))
  }
}
