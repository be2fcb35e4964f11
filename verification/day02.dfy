/**
 * Day 2, "Red-Nosed Reports": a report is a list of levels; it is safe
 * when the levels move in one direction by steps of 1 to 3 (`safe1`), or
 * become so once a single level is removed (`safe2`).
 */
module RedNosedReport {
  import opened Iterables
  import opened Strings

  // ---------------------------------------------------------------------
  // reference definition of a safe report
  // ---------------------------------------------------------------------

  /** Every adjacent pair falls by 1, 2 or 3. */
  predicate Decreasing(s: seq<int>) {
    forall i :: 0 <= i < |s| - 1 ==> 1 <= s[i] - s[i + 1] <= 3
  }

  /** Every adjacent pair rises by 1, 2 or 3. */
  predicate Increasing(s: seq<int>) {
    forall i :: 0 <= i < |s| - 1 ==> 1 <= s[i + 1] - s[i] <= 3
  }

  /** The rule of the puzzle: all increasing or all decreasing, gently. */
  predicate Gradual(s: seq<int>) {
    Increasing(s) || Decreasing(s)
  }

  // ---------------------------------------------------------------------
  // safe1
  // ---------------------------------------------------------------------

  /**
   * The arrow function handed to `any`: a pair that does not fall by 1 to
   * 3. Chunks always have two items; a shorter one is never bad.
   */
  predicate BadStep(pair: seq<int>) {
    |pair| >= 2 && (pair[0] - pair[1] <= 0 || pair[0] - pair[1] > 3)
  }

  /**
   * The destructuring of the first two levels and the reversal: a rising
   * report is reversed so that a safe one always falls. On fewer than two
   * levels the missing ones read as `null`, which never compares less, so
   * nothing is reversed.
   */
  function Oriented(s: seq<int>): seq<int> {
    if |s| >= 2 && s[0] < s[1] then Reverse(s) else s
  }

  /** `safe1`: no adjacent pair of the oriented report is a bad step. */
  predicate Safe1(s: seq<int>) {
    !Any(ChunkEvery(Oriented(s), 2, 1), BadStep)
  }

  /** No bad pair among the adjacent pairs is exactly a decreasing report. */
  lemma NoBadStepIsDecreasing(v: seq<int>)
    ensures !Any(ChunkEvery(v, 2, 1), BadStep) <==> Decreasing(v)
  {
    ChunkEveryPairs(v);
    var pairs := ChunkEvery(v, 2, 1);
    if Decreasing(v) {
      forall i | 0 <= i < |pairs|
        ensures !BadStep(pairs[i])
      {
        assert pairs[i] == [v[i], v[i + 1]];
      }
    }
    if !Any(pairs, BadStep) {
      forall i | 0 <= i < |v| - 1
        ensures 1 <= v[i] - v[i + 1] <= 3
      {
        assert pairs[i] == [v[i], v[i + 1]];
        assert !BadStep(pairs[i]);
      }
    }
  }

  /** A reversed report falls gently exactly when the report rises gently. */
  lemma DecreasingReverse(s: seq<int>)
    ensures Decreasing(Reverse(s)) <==> Increasing(s)
  {
    if Decreasing(Reverse(s)) {
      DecreasingReverseRises(s);
    }
    if Increasing(s) {
      IncreasingReverseFalls(s);
    }
  }

  lemma DecreasingReverseRises(s: seq<int>)
    requires Decreasing(Reverse(s))
    ensures Increasing(s)
  {
    var r := Reverse(s);
    forall j | 0 <= j < |s| - 1
      ensures 1 <= s[j + 1] - s[j] <= 3
    {
      var i := |s| - 2 - j;
      assert r[i] == s[j + 1] && r[i + 1] == s[j];
    }
  }

  lemma IncreasingReverseFalls(s: seq<int>)
    requires Increasing(s)
    ensures Decreasing(Reverse(s))
  {
    var r := Reverse(s);
    forall i | 0 <= i < |s| - 1
      ensures 1 <= r[i] - r[i + 1] <= 3
    {
      var j := |s| - 2 - i;
      assert r[i] == s[j + 1] && r[i + 1] == s[j];
    }
  }

  /**
   * `safe1` decides the rule of the puzzle: a report is safe exactly when
   * it is gradual, in either direction.
   */
  lemma Safe1IsGradual(s: seq<int>)
    ensures Safe1(s) <==> Gradual(s)
  {
    NoBadStepIsDecreasing(Oriented(s));
    if |s| >= 2 && s[0] < s[1] {
      DecreasingReverse(s);
      assert !Decreasing(s) by {
        assert !(1 <= s[0] - s[1]);
      }
    } else if |s| >= 2 {
      assert !Increasing(s) by {
        assert !(1 <= s[1] - s[0]);
      }
    }
  }

  /** Reading a report backwards does not change its safety. */
  lemma Safe1Reverse(s: seq<int>)
    ensures Safe1(Reverse(s)) == Safe1(s)
  {
    Safe1IsGradual(s);
    Safe1IsGradual(Reverse(s));
    DecreasingReverse(s);
    DecreasingReverse(Reverse(s));
    ReverseInvolution(s);
  }

  /** Two equal neighbours at the start make a report unsafe. */
  lemma Safe1RejectsEqualStart(s: seq<int>)
    requires |s| >= 2 && s[0] == s[1]
    ensures !Safe1(s)
  {
    Safe1IsGradual(s);
    assert !(1 <= s[1] - s[0]) && !(1 <= s[0] - s[1]);
  }

  /** Reports of at most one level have no pair and are safe. */
  lemma Safe1Short(s: seq<int>)
    requires |s| <= 1
    ensures Safe1(s)
  {
    Safe1IsGradual(s);
  }

  // ---------------------------------------------------------------------
  // safe2
  // ---------------------------------------------------------------------

  /** Every report obtained by removing one level, in position order. */
  function Removals(s: seq<int>): (r: seq<seq<int>>)
    ensures |r| == |s|
    ensures forall i :: 0 <= i < |s| ==> r[i] == RemoveAt(s, i)
  {
    Map(WithIndex(s), (p: (int, int)) => RemoveAt(s, p.0))
  }

  /** `safe2`: safe as it is, or safe after removing some single level. */
  predicate Safe2(s: seq<int>) {
    Safe1(s) || Any(Removals(s), Safe1)
  }

  /**
   * The Problem Dampener rule: a report passes when it is gradual or some
   * report with one level removed is gradual. A report that is safe
   * without the dampener stays safe with it.
   */
  lemma Safe2IsDampenedGradual(s: seq<int>)
    ensures Safe2(s) <==> Gradual(s) || exists i :: 0 <= i < |s| && Gradual(RemoveAt(s, i))
    ensures Safe1(s) ==> Safe2(s)
  {
    Safe1IsGradual(s);
    var rs := Removals(s);
    forall i | 0 <= i < |s|
      ensures Safe1(rs[i]) <==> Gradual(RemoveAt(s, i))
    {
      Safe1IsGradual(RemoveAt(s, i));
    }
  }

  /** Removing a level of a report of two levels leaves a safe report. */
  lemma Safe2Short(s: seq<int>)
    requires 1 <= |s| <= 2
    ensures Safe2(s)
  {
    var rs := Removals(s);
    assert |rs[0]| == |s| - 1;
    Safe1Short(rs[0]);
  }

  /** A gradual report stays gradual without its first or last level. */
  lemma GradualDropEnds(s: seq<int>)
    requires |s| >= 1 && Gradual(s)
    ensures Gradual(RemoveAt(s, 0))
    ensures Gradual(RemoveAt(s, |s| - 1))
  {
    var a := RemoveAt(s, 0);
    var b := RemoveAt(s, |s| - 1);
    if Increasing(s) {
      assert Increasing(a) by {
        forall i | 0 <= i < |a| - 1 ensures 1 <= a[i + 1] - a[i] <= 3 {
          assert a[i] == s[i + 1] && a[i + 1] == s[i + 2];
        }
      }
      assert Increasing(b) by {
        forall i | 0 <= i < |b| - 1 ensures 1 <= b[i + 1] - b[i] <= 3 {
          assert b[i] == s[i] && b[i + 1] == s[i + 1];
        }
      }
    } else {
      assert Decreasing(a) by {
        forall i | 0 <= i < |a| - 1 ensures 1 <= a[i] - a[i + 1] <= 3 {
          assert a[i] == s[i + 1] && a[i + 1] == s[i + 2];
        }
      }
      assert Decreasing(b) by {
        forall i | 0 <= i < |b| - 1 ensures 1 <= b[i] - b[i + 1] <= 3 {
          assert b[i] == s[i] && b[i + 1] == s[i + 1];
        }
      }
    }
  }

  /** The gentle reports of the puzzle statement are safe as they are. */
  lemma ExampleSafe(r1: seq<int>, r6: seq<int>)
    requires r1 == [7, 6, 4, 2, 1] && r6 == [1, 3, 6, 7, 9]
    ensures Safe1(r1) && Safe1(r6)
  {
    Safe1IsGradual(r1);
    Safe1IsGradual(r6);
  }

  /** A report with one rise and one fall outside 1 to 3 is not gradual. */
  lemma NotGradualAt(t: seq<int>, j: int, k: int)
    requires 0 <= j < |t| - 1 && 0 <= k < |t| - 1
    requires !(1 <= t[j + 1] - t[j] <= 3) && !(1 <= t[k] - t[k + 1] <= 3)
    ensures !Gradual(t)
  {
  }

  /** `1 2 7 8 9` jumps by 5 and is unsafe even with the dampener. */
  lemma ExampleJumpUp(r: seq<int>)
    requires r == [1, 2, 7, 8, 9]
    ensures !Safe1(r)
    ensures !Safe2(r)
  {
    Safe1IsGradual(r);
    NotGradualAt(r, 1, 0);
    Safe2IsDampenedGradual(r);
    forall i | 0 <= i < |r| ensures !Gradual(RemoveAt(r, i)) {
      JumpUpRemoval(r, i);
    }
  }

  lemma JumpUpRemoval(r: seq<int>, i: int)
    requires r == [1, 2, 7, 8, 9]
    requires 0 <= i < |r|
    ensures !Gradual(RemoveAt(r, i))
  {
    var t := RemoveAt(r, i);
    if i < 2 {
      assert t[0] <= 2 && t[1] >= 7;
      NotGradualAt(t, 0, 0);
    } else {
      assert t[0] == 1 && t[1] == 2 && t[2] >= 7;
      NotGradualAt(t, 1, 0);
    }
  }

  /** `1 3 2 4 5` changes direction once; dropping the 3 makes it safe. */
  lemma ExampleDampenedTurn(r: seq<int>)
    requires r == [1, 3, 2, 4, 5]
    ensures !Safe1(r)
    ensures Safe2(r)
  {
    Safe1IsGradual(r);
    NotGradualAt(r, 1, 0);
    var t := RemoveAt(r, 1);
    assert t == [1, 2, 4, 5];
    assert Increasing(t);
    Safe2IsDampenedGradual(r);
  }

  /** `8 6 4 4 1` repeats a level; dropping one 4 makes it safe. */
  lemma ExampleDampenedRepeat(r: seq<int>)
    requires r == [8, 6, 4, 4, 1]
    ensures !Safe1(r)
    ensures Safe2(r)
  {
    Safe1IsGradual(r);
    NotGradualAt(r, 2, 2);
    var t := RemoveAt(r, 2);
    assert t == [8, 6, 4, 1];
    assert Decreasing(t);
    Safe2IsDampenedGradual(r);
  }

  // ---------------------------------------------------------------------
  // the input pipeline
  // ---------------------------------------------------------------------

  /** Part 1: the number of safe reports. */
  function Part1(lines: seq<string>): (safe: int)
    requires forall i :: 0 <= i < |lines| ==> DecimalTokens(Split(lines[i], " ", true, true))
    ensures 0 <= safe <= |lines|
  {
    CountIsFilterLength(ParseLines(lines), Safe1);
    Count(ParseLines(lines), Safe1)
  }

  /** Part 2: the number of reports safe with the dampener. */
  function Part2(lines: seq<string>): (safe: int)
    requires forall i :: 0 <= i < |lines| ==> DecimalTokens(Split(lines[i], " ", true, true))
    ensures 0 <= safe <= |lines|
  {
    CountIsFilterLength(ParseLines(lines), Safe2);
    Count(ParseLines(lines), Safe2)
  }

  /**
   * Part 1 counts the gradual reports; the dampener never loses a report,
   * and neither part counts more reports than there are lines.
   */
  lemma PartsBounded(lines: seq<string>)
    requires forall i :: 0 <= i < |lines| ==> DecimalTokens(Split(lines[i], " ", true, true))
    ensures Part1(lines) == Count(ParseLines(lines), Gradual)
    ensures 0 <= Part1(lines) <= Part2(lines) <= |lines|
  {
    var reports := ParseLines(lines);
    forall i | 0 <= i < |reports| ensures Safe1(reports[i]) <==> Gradual(reports[i]) {
      Safe1IsGradual(reports[i]);
    }
    CountMonotone(reports, Safe1, Gradual);
    CountMonotone(reports, Gradual, Safe1);
    CountMonotone(reports, Safe1, Safe2);
    CountIsFilterLength(reports, Safe1);
    CountIsFilterLength(reports, Safe2);
  }
}
