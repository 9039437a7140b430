/** The wavefront computation over the state array, run sequentially.

    Each interior cell's worker waits for its east, south and south-east
    neighbours to hold a non-zero sum and then stores their total. Every cell
    depends only on cells with a larger index, so visiting the interior cells
    from the bottom-right corner to the top-left corner, one step per cell,
    gives the same grid as any interleaving of the workers. At the end of each
    round the last party to reach the barrier records the sum of cell 0, resets
    the grid and seeds the borders again. */
module Wavefront {
  import opened StateArray

  // ---------------------------------------------------------------------------
  // Reference definition: the value every cell holds after a complete wave
  // ---------------------------------------------------------------------------

  /** The Delannoy recurrence: a cell m rows above the last row and n columns
      left of the last column holds Delannoy(m, n). Every value is odd, so none
      is the 0 "not ready" sentinel. */
  function Delannoy(m: nat, n: nat): (d: int)
    ensures d >= 1 && d % 2 == 1
  {
    if m == 0 || n == 0 then 1
    else Delannoy(m, n - 1) + Delannoy(m - 1, n) + Delannoy(m - 1, n - 1)
  }

  /** The value cell i of an nrows x ncols grid holds after a complete wave. */
  function CellValue(nrows: int, ncols: int, i: int): int
    requires ncols > 0 && 0 <= i < nrows * ncols
  {
    CellOfIndex(nrows, ncols, i);
    Delannoy(nrows - 1 - i / ncols, ncols - 1 - i % ncols)
  }

  /** The whole grid after a complete wave. */
  function Solved(nrows: int, ncols: int): (s: seq<int>)
    requires nrows >= 1 && ncols >= 1
    ensures |s| == nrows * ncols
  {
    MulMonotone(0, nrows, ncols);
    seq(nrows * ncols, i requires 0 <= i < nrows * ncols => CellValue(nrows, ncols, i))
  }

  /** Delannoy numbers are symmetric, so the solved grid is symmetric about
      its anti-diagonal when it is square. */
  lemma {:induction false} DelannoySymmetric(m: nat, n: nat)
    ensures Delannoy(m, n) == Delannoy(n, m)
    decreases m + n
  {
    if m != 0 && n != 0 {
      DelannoySymmetric(m, n - 1);
      DelannoySymmetric(m - 1, n);
      DelannoySymmetric(m - 1, n - 1);
    }
  }

  /** Closed form one row above the last row: 2n + 1. */
  lemma {:induction false} DelannoyOne(n: nat)
    ensures Delannoy(1, n) == 2 * n + 1
  {
    if n > 0 {
      DelannoyOne(n - 1);
    }
  }

  /** Closed form two rows above the last row: 2n^2 + 2n + 1. */
  lemma {:induction false} DelannoyTwo(n: nat)
    ensures Delannoy(2, n) == 2 * n * n + 2 * n + 1
  {
    if n > 0 {
      DelannoyTwo(n - 1);
      DelannoyOne(n);
      DelannoyOne(n - 1);
    }
  }

  /** Every border cell of the solved grid holds 1; every interior cell holds
      the sum of its east, south and south-east neighbours and is at least 1. */
  lemma {:induction false} SolvedRecurrence(nrows: int, ncols: int, i: int)
    requires nrows >= 1 && ncols >= 1 && 0 <= i < nrows * ncols
    ensures IsBorder(nrows, ncols, i) ==> Solved(nrows, ncols)[i] == 1
    ensures IsInterior(nrows, ncols, i) ==>
      && 0 <= i < E(i) < S(ncols, i) + 1 < nrows * ncols
      && Solved(nrows, ncols)[i] >= 1
      && Solved(nrows, ncols)[i] ==
           Solved(nrows, ncols)[E(i)] + Solved(nrows, ncols)[S(ncols, i)] + Solved(nrows, ncols)[S(ncols, i) + 1]
  {
    BorderOrInterior(nrows, ncols, i);
    CellOfIndex(nrows, ncols, i);
    if IsInterior(nrows, ncols, i) {
      InteriorReadsInBounds(nrows, ncols, i);
      InteriorNeighbours(nrows, ncols, i);
    }
  }

  /** The solved value of the top-left cell, the round's result. */
  lemma {:induction false} SolvedCorner(nrows: int, ncols: int)
    requires nrows >= 1 && ncols >= 1
    ensures Solved(nrows, ncols)[0] == Delannoy(nrows - 1, ncols - 1)
  {
    MulMonotone(1, nrows, ncols);
    assert 0 / ncols == 0 && 0 % ncols == 0;
  }

  /** In (row, column) terms: cell (r, c) of the solved grid holds the
      Delannoy number of its distances to the last row and the last column. */
  lemma {:induction false} SolvedAt(nrows: int, ncols: int, r: int, c: int)
    requires 0 <= r < nrows && 0 <= c < ncols
    ensures 0 <= Index(ncols, r, c) < nrows * ncols
    ensures Solved(nrows, ncols)[Index(ncols, r, c)] == Delannoy(nrows - 1 - r, ncols - 1 - c)
  {
    IndexInBounds(nrows, ncols, r, c);
    IndexRowCol(ncols, r, c);
  }

  /** A 3 x 3 grid: interior cell (1,1) is 3, cells (0,1) and (1,0) are 5,
      and the corner (0,0), the round's result, is 13. */
  lemma {:induction false} ThreeByThree()
    ensures Solved(3, 3)[Index(3, 1, 1)] == 3
    ensures Solved(3, 3)[Index(3, 0, 1)] == 5
    ensures Solved(3, 3)[Index(3, 1, 0)] == 5
    ensures Solved(3, 3)[Index(3, 0, 0)] == 13
  {
    SolvedAt(3, 3, 1, 1);
    SolvedAt(3, 3, 0, 1);
    SolvedAt(3, 3, 1, 0);
    SolvedAt(3, 3, 0, 0);
    DelannoyOne(1);
    DelannoyOne(2);
    DelannoyTwo(1);
    DelannoyTwo(2);
  }

  // ---------------------------------------------------------------------------
  // One worker's step in one round
  // ---------------------------------------------------------------------------

  /** Grid contents after the worker of interior cell idx runs its step on
      contents s: when the east, south and south-east sums are all non-zero the
      cell takes their total, otherwise nothing changes. */
  function CellStep(nrows: int, ncols: int, s: seq<int>, idx: int): seq<int>
    requires ncols > 0 && |s| == nrows * ncols && IsInterior(nrows, ncols, idx)
  {
    InteriorReadsInBounds(nrows, ncols, idx);
    var eSum, sSum, esSum := s[E(idx)], s[S(ncols, idx)], s[S(ncols, idx) + 1];
    if eSum != 0 && sSum != 0 && esSum != 0 then s[idx := eSum + sSum + esSum] else s
  }

  /** The step writes the total when all three inputs are published, leaves
      the grid unchanged when one of them is still 0, and never touches any
      other cell. */
  lemma CellStepEffect(nrows: int, ncols: int, s: seq<int>, idx: int)
    requires ncols > 0 && |s| == nrows * ncols && IsInterior(nrows, ncols, idx)
    ensures 0 <= idx < E(idx) < S(ncols, idx) + 1 < |s|
    ensures |CellStep(nrows, ncols, s, idx)| == |s|
    ensures s[E(idx)] != 0 && s[S(ncols, idx)] != 0 && s[S(ncols, idx) + 1] != 0 ==>
      CellStep(nrows, ncols, s, idx)[idx] == s[E(idx)] + s[S(ncols, idx)] + s[S(ncols, idx) + 1]
    ensures s[E(idx)] == 0 || s[S(ncols, idx)] == 0 || s[S(ncols, idx) + 1] == 0 ==>
      CellStep(nrows, ncols, s, idx) == s
    ensures forall j :: 0 <= j < |s| && j != idx ==> CellStep(nrows, ncols, s, idx)[j] == s[j]
  {
    InteriorReadsInBounds(nrows, ncols, idx);
  }

  /** The body of one round of a worker bound to interior cell idx: read the
      three neighbours, and publish their total if none is 0. */
  method DoWorkStep(g: Grid, idx: int)
    requires g.Valid() && g.ncols >= 1 && IsInterior(g.nrows, g.ncols, idx)
    modifies g.sums
    ensures g.sums[..] == CellStep(g.nrows, g.ncols, old(g.sums[..]), idx)
  {
    InteriorReadsInBounds(g.nrows, g.ncols, idx);
    var eIdx := E(idx);
    var sIdx := S(g.ncols, idx);
    var esIdx := sIdx + 1;
    var eSum := g.sums[eIdx];
    var sSum := g.sums[sIdx];
    var esSum := g.sums[esIdx];
    if eSum != 0 && sSum != 0 && esSum != 0 {
      g.sums[idx] := eSum + sSum + esSum;
    }
  }

  // ---------------------------------------------------------------------------
  // The wave of one round, and the round boundary
  // ---------------------------------------------------------------------------

  /** All workers' steps of one round, from the bottom-right corner to the
      top-left corner. Starting from any grid whose border cells hold 1, every
      cell ends holding its solved value. */
  method Wave(g: Grid)
    requires g.Valid() && g.nrows >= 1 && g.ncols >= 1
    requires forall i :: IsBorder(g.nrows, g.ncols, i) ==> g.sums[i] == 1
    modifies g.sums
    ensures g.sums[..] == Solved(g.nrows, g.ncols)
  {
    var k := g.arrLen;
    while k > 0
      invariant 0 <= k <= g.arrLen
      invariant forall i :: k <= i < g.arrLen ==> g.sums[i] == Solved(g.nrows, g.ncols)[i]
      invariant forall i :: 0 <= i < k ==> g.sums[i] == old(g.sums[i])
    {
      k := k - 1;
      SolvedRecurrence(g.nrows, g.ncols, k);
      BorderOrInterior(g.nrows, g.ncols, k);
      if IsInterior(g.nrows, g.ncols, k) {
        DoWorkStep(g, k);
      }
    }
  }

  /** The barrier's completion action: record the sum of cell 0 as the
      round's result, reset every cell to 0, and seed the borders again. */
  method BarrierFunction(g: Grid) returns (gResult: int)
    requires g.Valid() && g.nrows >= 1 && g.ncols >= 1
    modifies g.sums
    ensures gResult == old(g.sums[0])
    ensures g.sums[..] == Seeded(g.nrows, g.ncols)
  {
    MulMonotone(1, g.nrows, g.ncols);
    gResult := g.sums[0];
    g.Reset();
    g.InitBorders();
  }

  // ---------------------------------------------------------------------------
  // Worker enumeration and the round loop
  // ---------------------------------------------------------------------------

  /** `workers` is what the enumeration has handed out before reaching cell
      (i, j): the interior cells that come earlier in row-major order, each
      once, in ascending order. */
  ghost predicate EnumeratedBefore(nrows: int, ncols: int, workers: seq<int>, i: int, j: int)
    requires ncols > 0
  {
    && (forall a, b :: 0 <= a < b < |workers| ==> workers[a] < workers[b])
    && (forall k :: 0 <= k < |workers| ==> IsInterior(nrows, ncols, workers[k]) && workers[k] < Index(ncols, i, j))
    && (forall r, c :: 0 <= r < nrows - 1 && 0 <= c < ncols - 1 && (r < i || (r == i && c < j)) ==>
          Index(ncols, r, c) in workers)
  }

  /** Handing out interior cell (i, j) extends the enumeration by one cell. */
  lemma EnumerateTake(nrows: int, ncols: int, workers: seq<int>, i: int, j: int)
    requires ncols > 0 && 0 <= i < nrows - 1 && 0 <= j < ncols - 1
    requires EnumeratedBefore(nrows, ncols, workers, i, j)
    ensures EnumeratedBefore(nrows, ncols, workers + [Index(ncols, i, j)], i, j + 1)
  {
    IndexInBounds(nrows, ncols, i, j);
    IndexRowCol(ncols, i, j);
    var w := workers + [Index(ncols, i, j)];
    forall r, c | 0 <= r < nrows - 1 && 0 <= c < ncols - 1 && (r < i || (r == i && c < j + 1))
      ensures Index(ncols, r, c) in w
    {
      if r == i && c == j {
        assert w[|workers|] == Index(ncols, r, c);
      } else {
        assert Index(ncols, r, c) in workers;
      }
    }
  }

  /** Skipping a cell of the last row or the last column keeps the enumeration. */
  lemma EnumerateSkip(nrows: int, ncols: int, workers: seq<int>, i: int, j: int)
    requires ncols > 0 && 0 <= i < nrows && 0 <= j < ncols && (i == nrows - 1 || j == ncols - 1)
    requires EnumeratedBefore(nrows, ncols, workers, i, j)
    ensures EnumeratedBefore(nrows, ncols, workers, i, j + 1)
  {
  }

  /** The end of row i is the start of row i + 1. */
  lemma EnumerateNextRow(nrows: int, ncols: int, workers: seq<int>, i: int)
    requires ncols > 0
    requires EnumeratedBefore(nrows, ncols, workers, i, ncols)
    ensures EnumeratedBefore(nrows, ncols, workers, i + 1, 0)
  {
    assert Index(ncols, i, ncols) == Index(ncols, i + 1, 0);
  }

  /** Once every row has been walked, every interior cell has been handed out. */
  lemma EnumerateComplete(nrows: int, ncols: int, workers: seq<int>)
    requires ncols > 0
    requires EnumeratedBefore(nrows, ncols, workers, nrows, 0)
    ensures forall q :: IsInterior(nrows, ncols, q) ==> q in workers
  {
    forall q | IsInterior(nrows, ncols, q)
      ensures q in workers
    {
      CellOfIndex(nrows, ncols, q);
    }
  }

  /** The number of cells in `rows` full rows of `cols` cells, counted a row at
      a time as the enumeration counts them. */
  function RowsTimesCols(rows: nat, cols: nat): nat {
    if rows == 0 then 0 else RowsTimesCols(rows - 1, cols) + cols
  }

  lemma {:induction false} RowsTimesColsIsProduct(rows: nat, cols: nat)
    ensures RowsTimesCols(rows, cols) == rows * cols
  {
    if rows > 0 {
      RowsTimesColsIsProduct(rows - 1, cols);
      assert rows * cols == (rows - 1) * cols + cols;
    }
  }

  /** The loop that starts one worker per interior cell: it walks the grid in
      row-major order and hands out index(i, j) for every cell outside the
      last row and the last column, counting them in `thrdCount`. */
  method EnumerateWorkers(numStateRows: int, numStateCols: int) returns (workers: seq<int>, thrdCount: int)
    requires numStateRows >= 1 && numStateCols >= 1
    ensures thrdCount == |workers| == (numStateRows - 1) * (numStateCols - 1)
    ensures forall a, b :: 0 <= a < b < |workers| ==> workers[a] < workers[b]
    ensures forall k :: 0 <= k < |workers| ==> IsInterior(numStateRows, numStateCols, workers[k])
    ensures forall i :: IsInterior(numStateRows, numStateCols, i) ==> i in workers
  {
    var numThreadRows := numStateRows - 1;
    var numThreadCols := numStateCols - 1;
    workers, thrdCount := [], 0;
    var i := 0;
    while i < numStateRows
      invariant 0 <= i <= numStateRows
      invariant thrdCount == |workers| == RowsTimesCols(if i <= numThreadRows then i else numThreadRows, numThreadCols)
      invariant EnumeratedBefore(numStateRows, numStateCols, workers, i, 0)
    {
      var j := 0;
      ghost var rowStart := thrdCount;
      while j < numStateCols
        invariant 0 <= j <= numStateCols
        invariant thrdCount == |workers| ==
          rowStart + (if i != numThreadRows then (if j <= numThreadCols then j else numThreadCols) else 0)
        invariant EnumeratedBefore(numStateRows, numStateCols, workers, i, j)
      {
        if i != numThreadRows && j != numThreadCols {
          var idx := Index(numStateCols, i, j);
          EnumerateTake(numStateRows, numStateCols, workers, i, j);
          workers := workers + [idx];
          thrdCount := thrdCount + 1;
        } else {
          EnumerateSkip(numStateRows, numStateCols, workers, i, j);
        }
        j := j + 1;
      }
      EnumerateNextRow(numStateRows, numStateCols, workers, i);
      i := i + 1;
    }
    EnumerateComplete(numStateRows, numStateCols, workers);
    RowsTimesColsIsProduct(numThreadRows, numThreadCols);
  }

  /** The whole run: create the grid, hand out one worker per interior cell,
      size the barrier for those workers plus the main thread, seed the
      borders, then run `numRounds` rounds. Each round is a wave followed by
      the barrier's completion action, whose recorded result the main thread
      reports. Every round starts from the same seeded grid, so every round
      reports the same value: the Delannoy number of the grid's dimensions. */
  method Run(numStateRows: int, numStateCols: int, numRounds: int)
    returns (workers: seq<int>, parties: int, results: seq<int>)
    requires numStateRows >= 1 && numStateCols >= 1
    ensures parties == |workers| + 1 == (numStateRows - 1) * (numStateCols - 1) + 1
    ensures forall k :: 0 <= k < |workers| ==> IsInterior(numStateRows, numStateCols, workers[k])
    ensures |results| == if numRounds > 0 then numRounds else 0
    ensures forall k :: 0 <= k < |results| ==> results[k] == Delannoy(numStateRows - 1, numStateCols - 1)
  {
    var numThreadRows := numStateRows - 1;
    var numThreadCols := numStateCols - 1;
    var threadArrLen := numThreadRows * numThreadCols;
    var g := new Grid(numStateRows, numStateCols);
    parties := threadArrLen + 1;
    var thrdCount;
    workers, thrdCount := EnumerateWorkers(numStateRows, numStateCols);
    g.InitBorders();
    assert g.sums[..] == Seeded(numStateRows, numStateCols);
    SolvedCorner(numStateRows, numStateCols);
    results := [];
    var round := 0;
    while round < numRounds
      invariant 0 <= round <= (if numRounds > 0 then numRounds else 0)
      invariant |results| == round
      invariant forall k :: 0 <= k < |results| ==> results[k] == Delannoy(numStateRows - 1, numStateCols - 1)
      invariant g.Valid() && g.nrows == numStateRows && g.ncols == numStateCols
      invariant g.sums[..] == Seeded(numStateRows, numStateCols)
    {
      forall i | IsBorder(g.nrows, g.ncols, i)
        ensures g.sums[i] == 1
      {
        SeededCells(g.nrows, g.ncols, i);
      }
      Wave(g);
      var gResult := BarrierFunction(g);
      results := results + [gResult];
      round := round + 1;
    }
  }
}
