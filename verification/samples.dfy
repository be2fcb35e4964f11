/**
 * Arithmetic shared by the worked puzzle samples of several days.
 */

module Samples {
  import opened Iterables

  /** The sum of a six-item list, item by item. */
  lemma SumSix(s: seq<int>)
    requires |s| == 6
    ensures Sum(s) == s[0] + s[1] + s[2] + s[3] + s[4] + s[5]
  {
    assert s == [s[0]] + ([s[1]] + ([s[2]] + ([s[3]] + ([s[4]] + [s[5]]))));
    SumAppend([s[4]], [s[5]]);
    SumAppend([s[3]], [s[4]] + [s[5]]);
    SumAppend([s[2]], [s[3]] + ([s[4]] + [s[5]]));
    SumAppend([s[1]], [s[2]] + ([s[3]] + ([s[4]] + [s[5]])));
    SumAppend([s[0]], [s[1]] + ([s[2]] + ([s[3]] + ([s[4]] + [s[5]]))));
  }
}
