/**
 * Properties of the repeat scanner that relate several runs or concrete
 * inputs: the result does not depend on the order in which window pairs are
 * visited, a worked example, and how repeats that end on the last frame
 * are missed by the program's bounds and found with the inclusive bound.
 */
module ScannerProperties {
  import opened Dtw
  import opened RepeatScanner

  /** Both windows of the pair (i, j) lie inside f. */
  predicate WithinFrames<F>(f: seq<F>, t: (int, int))
  {
    0 <= t.0 && 0 <= t.1 && t.0 + WindowSize <= |f| && t.1 + WindowSize <= |f|
  }

  /** The indices lo, lo + 1, ..., hi - 1, inserted one at a time. */
  function Interval(lo: int, hi: int): (r: set<int>)
    ensures forall x :: x in r <==> lo <= x < hi
    decreases hi - lo
  {
    if hi <= lo then {} else Interval(lo, hi - 1) + {hi - 1}
  }

  function WindowIndexes(i: int, j: int): (r: set<int>)
    ensures forall x :: x in r <==> InWindows(x, i, j)
  {
    Interval(i, i + WindowSize) + Interval(j, j + WindowSize)
  }

  /**
   * Insert the windows of every matching pair of `pairs` into a set, visiting
   * the pairs in the order given.
   */
  ghost function MarkPairs<F>(f: seq<F>, similar: (F, F) -> bool, pairs: seq<(int, int)>): set<int>
    requires forall t :: t in pairs ==> WithinFrames(f, t)
  {
    if pairs == [] then {}
    else
      var t := pairs[|pairs| - 1];
      assert t in pairs && WithinFrames(f, t);
      MarkPairs(f, similar, pairs[..|pairs| - 1]) +
        (if WindowsMatch(f, similar, t.0, t.1) then WindowIndexes(t.0, t.1) else {})
  }

  /** Visiting pairs in any order marks the union of their matching windows. */
  lemma {:induction false} MarkPairsMembers<F>(f: seq<F>, similar: (F, F) -> bool, pairs: seq<(int, int)>, x: int)
    requires forall t :: t in pairs ==> WithinFrames(f, t)
    ensures x in MarkPairs(f, similar, pairs) <==>
      exists t :: t in pairs && WindowsMatch(f, similar, t.0, t.1) && InWindows(x, t.0, t.1)
  {
    if pairs != [] {
      var init, last := pairs[..|pairs| - 1], pairs[|pairs| - 1];
      MarkPairsMembers(f, similar, init, x);
      if x in MarkPairs(f, similar, pairs) {
        if x in MarkPairs(f, similar, init) {
          var t :| t in init && WindowsMatch(f, similar, t.0, t.1) && InWindows(x, t.0, t.1);
          assert t in pairs;
        } else {
          assert last in pairs && WindowsMatch(f, similar, last.0, last.1) && InWindows(x, last.0, last.1);
        }
      }
      if exists t :: t in pairs && WindowsMatch(f, similar, t.0, t.1) && InWindows(x, t.0, t.1) {
        var t :| t in pairs && WindowsMatch(f, similar, t.0, t.1) && InWindows(x, t.0, t.1);
        if t != last {
          assert t in init;
        }
      }
    }
  }

  /**
   * Scan-order independence: inserting the windows of every visited pair,
   * in any order and with any repetition, gives exactly the scanner's set.
   */
  lemma ScanOrderIrrelevant<F>(f: seq<F>, similar: (F, F) -> bool, limit: int, pairs: seq<(int, int)>, x: int)
    requires limit + WindowSize <= |f| + 1
    requires forall t :: t in pairs <==> IsWindowPair(limit, t.0, t.1)
    requires forall t :: t in pairs ==> WithinFrames(f, t)
    ensures x in MarkPairs(f, similar, pairs) <==> Marked(f, similar, limit, x)
  {
    MarkPairsMembers(f, similar, pairs, x);
    if Marked(f, similar, limit, x) {
      var i, j :| IsWindowPair(limit, i, j) && WindowsMatch(f, similar, i, j) && InWindows(x, i, j);
      assert (i, j) in pairs;
    }
  }

  predicate Same(u: int, v: int)
  {
    u == v
  }

  /**
   * A block of six distinct frames followed by itself: with identity as the
   * similarity, the program's bounds mark frames 0..4 and 6..10 only.
   */
  lemma DoubledBlockExample(x: int)
    ensures Marked([0, 1, 2, 3, 4, 5, 0, 1, 2, 3, 4, 5], Same, 12 - WindowSize, x) <==> (0 <= x < 5 || 6 <= x < 11)
  {
    var f := [0, 1, 2, 3, 4, 5, 0, 1, 2, 3, 4, 5];
    if Marked(f, Same, 7, x) {
      var i, j :| IsWindowPair(7, i, j) && WindowsMatch(f, Same, i, j) && InWindows(x, i, j);
      assert SimilarAt(f, Same, i, j, 0) && SimilarAt(f, Same, i, j, 1);
      assert i == 0 && j == 6;
    }
    if 0 <= x < 5 || 6 <= x < 11 {
      assert WindowsMatch(f, Same, 0, 6) by {
        forall k | 0 <= k < WindowSize ensures SimilarAt(f, Same, 0, 6, k) {
        }
      }
      assert IsWindowPair(7, 0, 6) && InWindows(x, 0, 6);
    }
  }

  /**
   * With the program's bounds an exact repeat B ++ B is never found whole:
   * the final windows of the two copies match, yet the last frame is not
   * marked, and when B is one window long nothing at all is marked.
   */
  lemma ExactRepeatMissed<F>(b: seq<F>, similar: (F, F) -> bool, x: int)
    requires |b| >= WindowSize
    requires forall k :: 0 <= k < |b| ==> similar(b[k], b[k])
    ensures WindowsMatch(b + b, similar, |b| - WindowSize, 2 * |b| - WindowSize)
    ensures !Marked(b + b, similar, 2 * |b| - WindowSize, 2 * |b| - 1)
    ensures |b| == WindowSize ==> !Marked(b + b, similar, 2 * |b| - WindowSize, x)
  {
    var f, n := b + b, |b|;
    var p, q := n - WindowSize, 2 * n - WindowSize;
    forall k | 0 <= k < WindowSize ensures SimilarAt(f, similar, p, q, k) {
      assert f[p + k] == b[p + k] == f[q + k];
    }
    if Marked(f, similar, 2 * n - WindowSize, 2 * n - 1) {
      MarkedBounds(f, similar, 2 * n - 1);
    }
    if |b| == WindowSize {
      NothingMarkedWhenShort(f, similar, x);
    }
  }

  /** The same miss for the DTW test, whose every non-empty frame is similar to itself. */
  lemma ExactRepeatMissedDtw(b: seq<Frame>, x: int)
    requires |b| >= WindowSize
    requires forall k :: 0 <= k < |b| ==> |b[k]| >= 1
    ensures WindowsMatch(b + b, FingerprintsSimilar, |b| - WindowSize, 2 * |b| - WindowSize)
    ensures !Marked(b + b, FingerprintsSimilar, 2 * |b| - WindowSize, 2 * |b| - 1)
    ensures |b| == WindowSize ==> !Marked(b + b, FingerprintsSimilar, 2 * |b| - WindowSize, x)
  {
    forall k | 0 <= k < |b| ensures FingerprintsSimilar(b[k], b[k]) {
      SelfDistanceZero(b[k]);
    }
    ExactRepeatMissed(b, FingerprintsSimilar, x);
  }

  /** With the inclusive bound every frame of an exact repeat B ++ B is marked. */
  lemma InclusiveScanMarksWholeRepeat<F>(b: seq<F>, similar: (F, F) -> bool, x: int)
    requires |b| >= WindowSize
    requires forall k :: 0 <= k < |b| ==> similar(b[k], b[k])
    requires 0 <= x < 2 * |b|
    ensures Marked(b + b, similar, 2 * |b| - WindowSize + 1, x)
  {
    var f, n := b + b, |b|;
    var y := if x < n then x else x - n;
    var p := if y <= n - WindowSize then y else n - WindowSize;
    var q := p + n;
    forall k | 0 <= k < WindowSize ensures SimilarAt(f, similar, p, q, k) {
      assert f[p + k] == b[p + k] == f[q + k];
    }
    assert IsWindowPair(2 * n - WindowSize + 1, p, q) && WindowsMatch(f, similar, p, q) && InWindows(x, p, q);
  }

  /** The same for the DTW test, whose every non-empty frame is similar to itself. */
  lemma InclusiveDtwScanMarksWholeRepeat(b: seq<Frame>, x: int)
    requires |b| >= WindowSize
    requires forall k :: 0 <= k < |b| ==> |b[k]| >= 1
    requires 0 <= x < 2 * |b|
    ensures Marked(b + b, FingerprintsSimilar, 2 * |b| - WindowSize + 1, x)
  {
    forall k | 0 <= k < |b| ensures FingerprintsSimilar(b[k], b[k]) {
      SelfDistanceZero(b[k]);
    }
    InclusiveScanMarksWholeRepeat(b, FingerprintsSimilar, x);
  }
}
