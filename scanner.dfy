/**
 * Repeat scanner: an exhaustive search over pairs of comparison windows of
 * `WindowSize` consecutive frames. A pair (i, j) is compared when the
 * second window starts at least one window after the first and both start
 * before a bound `limit`; when all frame pairs of the two windows are
 * similar, every index of both windows is marked. The similarity relation
 * is a parameter, so the scanner's properties hold for any relation.
 */
module RepeatScanner {
  import opened Dtw

  /** Number of consecutive frames compared as one window. */
  const WindowSize: nat := 5

  /** (i, j) is a pair the scan visits when both starts lie below `limit`. */
  predicate IsWindowPair(limit: int, i: int, j: int)
  {
    0 <= i && i + WindowSize <= j < limit
  }

  /** x belongs to the window starting at i or to the one starting at j. */
  predicate InWindows(x: int, i: int, j: int)
  {
    i <= x < i + WindowSize || j <= x < j + WindowSize
  }

  /** Frame k of the window at i is similar to frame k of the window at j. */
  predicate SimilarAt<F>(f: seq<F>, similar: (F, F) -> bool, i: int, j: int, k: int)
    requires 0 <= i && 0 <= j && 0 <= k < WindowSize && i + WindowSize <= |f| && j + WindowSize <= |f|
  {
    similar(f[i + k], f[j + k])
  }

  /** The frames of the two windows are pairwise similar. */
  predicate WindowsMatch<F>(f: seq<F>, similar: (F, F) -> bool, i: int, j: int)
    requires 0 <= i && 0 <= j && i + WindowSize <= |f| && j + WindowSize <= |f|
  {
    forall k :: 0 <= k < WindowSize ==> SimilarAt(f, similar, i, j, k)
  }

  /** x lies in a matching window pair that the scan visits. */
  ghost predicate Marked<F>(f: seq<F>, similar: (F, F) -> bool, limit: int, x: int)
    requires limit + WindowSize <= |f| + 1
  {
    exists i, j :: IsWindowPair(limit, i, j) && WindowsMatch(f, similar, i, j) && InWindows(x, i, j)
  }

  /** As Marked, restricted to the pairs visited before (i0, j0). */
  ghost predicate MarkedBefore<F>(f: seq<F>, similar: (F, F) -> bool, limit: int, x: int, i0: int, j0: int)
    requires limit + WindowSize <= |f| + 1
  {
    exists i, j :: IsWindowPair(limit, i, j) && (i < i0 || (i == i0 && j < j0)) &&
      WindowsMatch(f, similar, i, j) && InWindows(x, i, j)
  }

  /**
   * The frame-by-frame comparison of two windows, leaving at the first
   * dissimilar pair; the answer is that of comparing all of them.
   */
  method WindowsAreSimilar<F>(f: seq<F>, similar: (F, F) -> bool, i: int, j: int) returns (isRepeated: bool)
    requires 0 <= i && 0 <= j && i + WindowSize <= |f| && j + WindowSize <= |f|
    ensures isRepeated == WindowsMatch(f, similar, i, j)
  {
    isRepeated := true;
    var k := 0;
    while k < WindowSize
      invariant 0 <= k <= WindowSize
      invariant forall t :: 0 <= t < k ==> SimilarAt(f, similar, i, j, t)
    {
      if !similar(f[i + k], f[j + k]) {
        assert !SimilarAt(f, similar, i, j, k);
        isRepeated := false;
        break;
      }
      k := k + 1;
    }
  }

  /**
   * The nested scan over window pairs with starts below `limit`,
   * accumulating the indices of matching windows in a set.
   */
  method ScanWindowPairs<F>(f: seq<F>, similar: (F, F) -> bool, limit: int) returns (repeated: set<int>)
    requires limit + WindowSize <= |f| + 1
    ensures forall x :: x in repeated <==> Marked(f, similar, limit, x)
  {
    repeated := {};
    var i := 0;
    while i < limit
      invariant 0 <= i
      invariant forall x :: x in repeated <==> MarkedBefore(f, similar, limit, x, i, 0)
    {
      var j := i + WindowSize;
      forall x ensures MarkedBefore(f, similar, limit, x, i, 0) <==> MarkedBefore(f, similar, limit, x, i, j) {
        MarkedBeforeRowStart(f, similar, limit, x, i);
      }
      while j < limit
        invariant i + WindowSize <= j
        invariant forall x :: x in repeated <==> MarkedBefore(f, similar, limit, x, i, j)
      {
        var isRepeated := WindowsAreSimilar(f, similar, i, j);
        ghost var before := repeated;
        if isRepeated {
          var k := 0;
          while k < WindowSize
            invariant 0 <= k <= WindowSize
            invariant forall x :: x in repeated <==> (x in before || i <= x < i + k || j <= x < j + k)
          {
            repeated := repeated + {i + k};
            repeated := repeated + {j + k};
            k := k + 1;
          }
        }
        forall x ensures x in repeated <==> MarkedBefore(f, similar, limit, x, i, j + 1) {
          MarkedBeforeStep(f, similar, limit, x, i, j);
        }
        j := j + 1;
      }
      forall x ensures MarkedBefore(f, similar, limit, x, i, j) <==> MarkedBefore(f, similar, limit, x, i + 1, 0) {
        MarkedBeforeRowEnd(f, similar, limit, x, i, j);
      }
      i := i + 1;
    }
    forall x ensures MarkedBefore(f, similar, limit, x, i, 0) <==> Marked(f, similar, limit, x) {
      MarkedBeforeAll(f, similar, limit, x, i);
    }
  }

  /**
   * `detectRepeatedSegments` with the similarity relation as a parameter:
   * both window starts below `|f| - WindowSize`. Every marked index lies in
   * [0, |f| - 2], so the last frame is never marked, and nothing is marked
   * unless there are at least 2 * WindowSize + 1 frames.
   */
  method DetectRepeatedSegments<F>(f: seq<F>, similar: (F, F) -> bool) returns (repeated: set<int>)
    ensures forall x :: x in repeated <==> Marked(f, similar, |f| - WindowSize, x)
    ensures forall x :: x in repeated ==> 0 <= x <= |f| - 2
    ensures |f| <= 2 * WindowSize ==> repeated == {}
  {
    repeated := ScanWindowPairs(f, similar, |f| - WindowSize);
    forall x | x in repeated ensures 0 <= x <= |f| - 2 {
      MarkedBounds(f, similar, x);
    }
    if |f| <= 2 * WindowSize {
      forall x ensures x !in repeated {
        NothingMarkedWhenShort(f, similar, x);
      }
    }
  }

  /**
   * The scan with the bound one higher, so that a window may end on the last
   * frame: both starts at most `|f| - WindowSize`.
   */
  method DetectRepeatedSegmentsInclusive<F>(f: seq<F>, similar: (F, F) -> bool) returns (repeated: set<int>)
    ensures forall x :: x in repeated <==> Marked(f, similar, |f| - WindowSize + 1, x)
    ensures forall x :: x in repeated ==> 0 <= x < |f|
  {
    repeated := ScanWindowPairs(f, similar, |f| - WindowSize + 1);
    forall x | x in repeated ensures 0 <= x < |f| {
      var i, j :| IsWindowPair(|f| - WindowSize + 1, i, j) && WindowsMatch(f, similar, i, j) && InWindows(x, i, j);
      assert i < j && j + WindowSize <= |f|;
    }
  }

  /** The scanner as the program runs it: similarity is the DTW test. */
  method DetectRepeatedSegmentsDtw(frames: seq<Frame>) returns (repeated: set<int>)
    ensures forall x :: x in repeated <==> Marked(frames, FingerprintsSimilar, |frames| - WindowSize, x)
    ensures forall x :: x in repeated ==> 0 <= x <= |frames| - 2
    ensures |frames| <= 2 * WindowSize ==> repeated == {}
  {
    repeated := DetectRepeatedSegments(frames, FingerprintsSimilar);
  }

  // ---------------------------------------------------------------------
  // Steps of the scan

  lemma MarkedBeforeRowStart<F>(f: seq<F>, similar: (F, F) -> bool, limit: int, x: int, i: int)
    requires limit + WindowSize <= |f| + 1
    ensures MarkedBefore(f, similar, limit, x, i, 0) <==> MarkedBefore(f, similar, limit, x, i, i + WindowSize)
  {
    if MarkedBefore(f, similar, limit, x, i, i + WindowSize) {
      var p, q :| IsWindowPair(limit, p, q) && (p < i || (p == i && q < i + WindowSize)) &&
        WindowsMatch(f, similar, p, q) && InWindows(x, p, q);
      assert IsWindowPair(limit, p, q) && p < i;
    }
  }

  lemma MarkedBeforeStep<F>(f: seq<F>, similar: (F, F) -> bool, limit: int, x: int, i: int, j: int)
    requires limit + WindowSize <= |f| + 1
    requires IsWindowPair(limit, i, j)
    ensures MarkedBefore(f, similar, limit, x, i, j + 1) <==>
      (MarkedBefore(f, similar, limit, x, i, j) || (WindowsMatch(f, similar, i, j) && InWindows(x, i, j)))
  {
    if MarkedBefore(f, similar, limit, x, i, j + 1) && !(WindowsMatch(f, similar, i, j) && InWindows(x, i, j)) {
      var p, q :| IsWindowPair(limit, p, q) && (p < i || (p == i && q < j + 1)) &&
        WindowsMatch(f, similar, p, q) && InWindows(x, p, q);
      assert IsWindowPair(limit, p, q) && (p < i || (p == i && q < j));
    }
    if MarkedBefore(f, similar, limit, x, i, j) {
      var p, q :| IsWindowPair(limit, p, q) && (p < i || (p == i && q < j)) &&
        WindowsMatch(f, similar, p, q) && InWindows(x, p, q);
      assert IsWindowPair(limit, p, q) && (p < i || (p == i && q < j + 1));
    }
    if WindowsMatch(f, similar, i, j) && InWindows(x, i, j) {
      assert IsWindowPair(limit, i, j) && (i < i || (i == i && j < j + 1));
    }
  }

  lemma MarkedBeforeRowEnd<F>(f: seq<F>, similar: (F, F) -> bool, limit: int, x: int, i: int, j: int)
    requires limit + WindowSize <= |f| + 1
    requires limit <= j
    ensures MarkedBefore(f, similar, limit, x, i, j) <==> MarkedBefore(f, similar, limit, x, i + 1, 0)
  {
    if MarkedBefore(f, similar, limit, x, i, j) {
      var p, q :| IsWindowPair(limit, p, q) && (p < i || (p == i && q < j)) &&
        WindowsMatch(f, similar, p, q) && InWindows(x, p, q);
      assert IsWindowPair(limit, p, q) && p < i + 1;
    }
    if MarkedBefore(f, similar, limit, x, i + 1, 0) {
      var p, q :| IsWindowPair(limit, p, q) && (p < i + 1 || (p == i + 1 && q < 0)) &&
        WindowsMatch(f, similar, p, q) && InWindows(x, p, q);
      assert IsWindowPair(limit, p, q) && (p < i || (p == i && q < j));
    }
  }

  lemma MarkedBeforeAll<F>(f: seq<F>, similar: (F, F) -> bool, limit: int, x: int, i: int)
    requires limit + WindowSize <= |f| + 1
    requires limit <= i
    ensures MarkedBefore(f, similar, limit, x, i, 0) <==> Marked(f, similar, limit, x)
  {
    if Marked(f, similar, limit, x) {
      var p, q :| IsWindowPair(limit, p, q) && WindowsMatch(f, similar, p, q) && InWindows(x, p, q);
      assert IsWindowPair(limit, p, q) && p < i;
    }
  }

  // ---------------------------------------------------------------------
  // Properties of the result

  /**
   * Bounds of the program's scan: a marked index lies in [0, |f| - 2]; the
   * last frame is never marked, and the two windows of a visited pair are
   * disjoint.
   */
  lemma MarkedBounds<F>(f: seq<F>, similar: (F, F) -> bool, x: int)
    requires Marked(f, similar, |f| - WindowSize, x)
    ensures 0 <= x <= |f| - 2
  {
    var i, j :| IsWindowPair(|f| - WindowSize, i, j) && WindowsMatch(f, similar, i, j) && InWindows(x, i, j);
    assert i < j && j + WindowSize <= |f| - 1;
  }

  /** With at most 2 * WindowSize frames no pair is visited. */
  lemma NothingMarkedWhenShort<F>(f: seq<F>, similar: (F, F) -> bool, x: int)
    requires |f| <= 2 * WindowSize
    ensures !Marked(f, similar, |f| - WindowSize, x)
  {
  }

  /** The two windows of a visited pair never share an index. */
  lemma WindowsDisjoint(limit: int, i: int, j: int, x: int)
    requires IsWindowPair(limit, i, j)
    ensures !(i <= x < i + WindowSize && j <= x < j + WindowSize)
  {
  }
}
