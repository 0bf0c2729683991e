/**
 * Frame similarity metric: dynamic time warping over the frequency bins of
 * two spectral frames, with the program's boundary handling (only the
 * origin cell is seeded; the rest of row 0 and column 0 stays infinite).
 */
module Dtw {
  import opened Wrappers
  import opened Extended

  type Frame = seq<real>

  /** The similarity threshold of `areFingerprintsSimilar`. */
  const Threshold: real := 0.8

  /**
   * Value of cell (i, j) of the cost table once it is filled: 0 at the
   * origin, infinite on the rest of row 0 and column 0, and the recurrence
   * for interior cells.
   */
  function Cell(a: Frame, b: Frame, i: nat, j: nat): Ext
    requires i < |a| && j < |b|
    decreases i + j, 1
  {
    if i == 0 && j == 0 then Fin(0.0)
    else if i == 0 || j == 0 then Inf
    else Interior(a, b, i, j)
  }

  /** An interior cell: the bin cost plus the cheapest of the three predecessors. */
  function Interior(a: Frame, b: Frame, i: nat, j: nat): Ext
    requires 1 <= i < |a| && 1 <= j < |b|
    decreases i + j, 0
  {
    Step(Abs(a[i] - b[j]), Cell(a, b, i - 1, j), Cell(a, b, i, j - 1), Cell(a, b, i - 1, j - 1))
  }

  /** The recurrence: bin cost plus `min(min(up, left), diag)`. */
  function Step(cost: real, up: Ext, left: Ext, diag: Ext): Ext
  {
    Add(Fin(cost), Min(Min(up, left), diag))
  }

  /**
   * `computeDTWDistance`: the last cell of the table, or None when a frame
   * is empty (the program then fails on the write to `dtw[0][0]`).
   */
  function DtwDistance(a: Frame, b: Frame): Option<Ext>
  {
    if |a| == 0 || |b| == 0 then None else Some(Cell(a, b, |a| - 1, |b| - 1))
  }

  /** `areFingerprintsSimilar`: the distance is strictly below the threshold. */
  predicate FingerprintsSimilar(a: Frame, b: Frame)
  {
    DtwDistance(a, b).Some? && Below(DtwDistance(a, b).value, Threshold)
  }

  /**
   * The table-filling algorithm: every cell starts at infinity, the origin
   * is set to 0, then the interior is filled row by row.
   */
  method ComputeDTWDistance(a: Frame, b: Frame) returns (d: Option<Ext>)
    ensures d == DtwDistance(a, b)
    ensures d.Some? ==> NonNegative(d.value)
  {
    var n, m := |a|, |b|;
    if n == 0 || m == 0 {
      return None;
    }
    var dtw := new Ext[n, m];
    var i := 0;
    while i < n
      invariant 0 <= i <= n
      invariant forall r, c :: 0 <= r < i && 0 <= c < m ==> dtw[r, c] == Inf
    {
      var j := 0;
      while j < m
        invariant 0 <= j <= m
        invariant forall r, c :: 0 <= r < i && 0 <= c < m ==> dtw[r, c] == Inf
        invariant forall c :: 0 <= c < j ==> dtw[i, c] == Inf
      {
        dtw[i, j] := Inf;
        j := j + 1;
      }
      i := i + 1;
    }
    dtw[0, 0] := Fin(0.0);

    i := 1;
    while i < n
      invariant 1 <= i <= n
      invariant forall r, c {:trigger dtw[r, c]} :: 0 <= r < n && 0 <= c < m && (r < i || c == 0) ==> dtw[r, c] == Cell(a, b, r, c)
    {
      var j := 1;
      while j < m
        invariant 1 <= j <= m
        invariant forall r, c {:trigger dtw[r, c]} :: 0 <= r < n && 0 <= c < m && (r < i || c == 0 || (r == i && c < j)) ==>
                    dtw[r, c] == Cell(a, b, r, c)
      {
        var cost := Abs(a[i] - b[j]);
        assert dtw[i - 1, j] == Cell(a, b, i - 1, j);
        assert dtw[i, j - 1] == Cell(a, b, i, j - 1);
        assert dtw[i - 1, j - 1] == Cell(a, b, i - 1, j - 1);
        dtw[i, j] := Add(Fin(cost), Min(Min(dtw[i - 1, j], dtw[i, j - 1]), dtw[i - 1, j - 1]));
        j := j + 1;
      }
      i := i + 1;
    }
    assert dtw[n - 1, m - 1] == Cell(a, b, n - 1, m - 1);
    CellNonNegative(a, b, n - 1, m - 1);
    d := Some(dtw[n - 1, m - 1]);
  }

  /** `areFingerprintsSimilar`, calling the table-filling method; None when it fails. */
  method AreFingerprintsSimilar(a: Frame, b: Frame) returns (similar: Option<bool>)
    ensures similar.None? <==> (|a| == 0 || |b| == 0)
    ensures similar.Some? ==> (similar.value <==> FingerprintsSimilar(a, b))
  {
    var d := ComputeDTWDistance(a, b);
    if d.None? {
      return None;
    }
    similar := Some(Below(d.value, Threshold));
  }

  // ---------------------------------------------------------------------
  // Properties of the table

  /** Transposing the table: swapping the frames swaps the indices. */
  lemma {:induction false} CellSymmetric(a: Frame, b: Frame, i: nat, j: nat)
    requires i < |a| && j < |b|
    ensures Cell(a, b, i, j) == Cell(b, a, j, i)
    decreases i + j
  {
    if i > 0 && j > 0 {
      CellSymmetric(a, b, i - 1, j);
      CellSymmetric(a, b, i, j - 1);
      CellSymmetric(a, b, i - 1, j - 1);
      MinCommutes(Cell(a, b, i - 1, j), Cell(a, b, i, j - 1));
      assert Abs(a[i] - b[j]) == Abs(b[j] - a[i]);
    }
  }

  /** Every cell is infinite or at least zero. */
  lemma {:induction false} CellNonNegative(a: Frame, b: Frame, i: nat, j: nat)
    requires i < |a| && j < |b|
    ensures NonNegative(Cell(a, b, i, j))
    decreases i + j
  {
    if i > 0 && j > 0 {
      CellNonNegative(a, b, i - 1, j);
      CellNonNegative(a, b, i, j - 1);
      CellNonNegative(a, b, i - 1, j - 1);
    }
  }

  /** Every interior cell is finite: some predecessor is the origin or interior. */
  lemma {:induction false} CellInteriorFinite(a: Frame, b: Frame, i: nat, j: nat)
    requires 1 <= i < |a| && 1 <= j < |b|
    ensures Cell(a, b, i, j).Fin?
    decreases i + j
  {
    if i > 1 {
      CellInteriorFinite(a, b, i - 1, j);
    } else if j > 1 {
      CellInteriorFinite(a, b, i, j - 1);
    }
  }

  /** Cells depend on the bins from index 1 on only: bin 0 is never read. */
  lemma {:induction false} CellIgnoresFirstBin(a: Frame, a': Frame, b: Frame, b': Frame, i: nat, j: nat)
    requires |a| == |a'| && |b| == |b'|
    requires forall k :: 1 <= k < |a| ==> a[k] == a'[k]
    requires forall k :: 1 <= k < |b| ==> b[k] == b'[k]
    requires i < |a| && j < |b|
    ensures Cell(a, b, i, j) == Cell(a', b', i, j)
    decreases i + j
  {
    if i > 0 && j > 0 {
      CellIgnoresFirstBin(a, a', b, b', i - 1, j);
      CellIgnoresFirstBin(a, a', b, b', i, j - 1);
      CellIgnoresFirstBin(a, a', b, b', i - 1, j - 1);
      assert a[i] == a'[i] && b[j] == b'[j];
    }
  }

  /** Cost of the straight diagonal alignment of bins 1..i. */
  function DiagonalCost(a: Frame, b: Frame, i: nat): real
    requires i < |a| && i < |b|
  {
    if i == 0 then 0.0 else DiagonalCost(a, b, i - 1) + Abs(a[i] - b[i])
  }

  /** A cell on the diagonal costs no more than the diagonal alignment. */
  lemma {:induction false} CellWithinDiagonal(a: Frame, b: Frame, i: nat)
    requires i < |a| && i < |b|
    ensures LessEq(Cell(a, b, i, i), Fin(DiagonalCost(a, b, i)))
  {
    if i > 0 {
      CellWithinDiagonal(a, b, i - 1);
      var up, left, diag := Cell(a, b, i - 1, i), Cell(a, b, i, i - 1), Cell(a, b, i - 1, i - 1);
      assert LessEq(Min(Min(up, left), diag), diag);
      assert LessEq(Min(Min(up, left), diag), Fin(DiagonalCost(a, b, i - 1)));
      AddMonotone(Abs(a[i] - b[i]), Min(Min(up, left), diag), Fin(DiagonalCost(a, b, i - 1)));
    }
  }

  lemma {:induction false} DiagonalCostSelf(a: Frame, i: nat)
    requires i < |a|
    ensures DiagonalCost(a, a, i) == 0.0
  {
    if i > 0 {
      DiagonalCostSelf(a, i - 1);
    }
  }

  // ---------------------------------------------------------------------
  // Properties of the distance and of the similarity test

  /** The distance does not depend on the order of the two frames. */
  lemma DtwSymmetric(a: Frame, b: Frame)
    ensures DtwDistance(a, b) == DtwDistance(b, a)
    ensures FingerprintsSimilar(a, b) <==> FingerprintsSimilar(b, a)
  {
    if |a| > 0 && |b| > 0 {
      CellSymmetric(a, b, |a| - 1, |b| - 1);
    }
  }

  /**
   * How the distance depends on the lengths: None for an empty frame, 0 when
   * both frames have one bin, infinite when exactly one has one bin (the
   * last cell is then on row 0 or column 0), finite when both have two or
   * more; never negative.
   */
  lemma DtwByLength(a: Frame, b: Frame)
    ensures DtwDistance(a, b).None? <==> (|a| == 0 || |b| == 0)
    ensures DtwDistance(a, b).Some? ==> NonNegative(DtwDistance(a, b).value)
    ensures |a| == 1 && |b| == 1 ==> DtwDistance(a, b) == Some(Fin(0.0))
    ensures |a| == 1 && |b| >= 2 ==> DtwDistance(a, b) == Some(Inf)
    ensures |a| >= 2 && |b| == 1 ==> DtwDistance(a, b) == Some(Inf)
    ensures |a| >= 2 && |b| >= 2 ==> DtwDistance(a, b).Some? && DtwDistance(a, b).value.Fin?
  {
    if |a| >= 2 && |b| >= 2 {
      CellInteriorFinite(a, b, |a| - 1, |b| - 1);
    }
    if |a| >= 1 && |b| >= 1 {
      CellNonNegative(a, b, |a| - 1, |b| - 1);
    }
  }

  /** Frames that differ only in bin 0 are at the same distance from everything. */
  lemma DtwIgnoresFirstBin(a: Frame, a': Frame, b: Frame, b': Frame)
    requires |a| == |a'| && |b| == |b'|
    requires forall k :: 1 <= k < |a| ==> a[k] == a'[k]
    requires forall k :: 1 <= k < |b| ==> b[k] == b'[k]
    ensures DtwDistance(a, b) == DtwDistance(a', b')
  {
    if |a| > 0 && |b| > 0 {
      CellIgnoresFirstBin(a, a', b, b', |a| - 1, |b| - 1);
    }
  }

  /**
   * Frames of equal length whose bin-by-bin differences (from bin 1 on)
   * sum to less than the threshold are similar.
   */
  lemma SimilarWhenDiagonalClose(a: Frame, b: Frame)
    requires |a| == |b| >= 1
    requires DiagonalCost(a, b, |a| - 1) < Threshold
    ensures FingerprintsSimilar(a, b)
  {
    CellWithinDiagonal(a, b, |a| - 1);
  }

  /** A non-empty frame is at distance 0 from itself, hence similar to itself. */
  lemma SelfDistanceZero(a: Frame)
    requires |a| >= 1
    ensures DtwDistance(a, a) == Some(Fin(0.0))
    ensures FingerprintsSimilar(a, a)
  {
    CellWithinDiagonal(a, a, |a| - 1);
    DiagonalCostSelf(a, |a| - 1);
    CellNonNegative(a, a, |a| - 1, |a| - 1);
  }
}
