/** The state array: a row-major grid of integer `sum` cells, `nrows` x `ncols`,
    with the index and neighbour arithmetic that maps (row, column) positions onto
    the flat array. Cells in the last column and the last row are border cells.

    The C module keeps the grid in file-level globals and reads the global column
    count inside `index`, `N` and `S`; here the column count is an explicit
    parameter of those functions, and the globals become the fields of `Grid`. */
module StateArray {

  // ---------------------------------------------------------------------------
  // Index and neighbour arithmetic (no bounds checks, as in the source)
  // ---------------------------------------------------------------------------

  /** Flat position of cell (r, c) in a grid with `ncols` columns. */
  function Index(ncols: int, r: int, c: int): int {
    r * ncols + c
  }

  /** North neighbour: one row up. */
  function N(ncols: int, i: int): int {
    i - ncols
  }

  /** South neighbour: one row down. */
  function S(ncols: int, i: int): int {
    i + ncols
  }

  /** East neighbour: one column right. */
  function E(i: int): int {
    i + 1
  }

  /** West neighbour: one column left. */
  function W(i: int): int {
    i - 1
  }

  /** Cell i lies in the last row or in the last column. */
  predicate IsBorder(nrows: int, ncols: int, i: int)
    requires ncols > 0
  {
    0 <= i < nrows * ncols && (i / ncols == nrows - 1 || i % ncols == ncols - 1)
  }

  /** Cell i is one of the (nrows-1) x (ncols-1) cells that a worker computes. */
  predicate IsInterior(nrows: int, ncols: int, i: int)
    requires ncols > 0
  {
    0 <= i < nrows * ncols && i / ncols < nrows - 1 && i % ncols < ncols - 1
  }

  /** Multiplying by a positive factor keeps the order of the other factor. */
  lemma MulMonotone(a: int, b: int, k: int)
    requires a <= b && k >= 0
    ensures a * k <= b * k
  {
    assert b * k - a * k == (b - a) * k;
  }

  /** Dividing the index of (r, c) by the column count gives back the row and
      the column: `index` is undone by division and remainder. */
  lemma {:induction false} IndexRowCol(ncols: int, r: int, c: int)
    requires 0 <= c < ncols
    ensures Index(ncols, r, c) / ncols == r
    ensures Index(ncols, r, c) % ncols == c
  {
    var i := Index(ncols, r, c);
    var q, m := i / ncols, i % ncols;
    assert i == q * ncols + m;
    assert (q - r) * ncols == c - m;
    if q > r {
      MulMonotone(1, q - r, ncols);
      assert false;
    } else if q < r {
      MulMonotone(q - r, -1, ncols);
      assert false;
    }
  }

  /** Every position of the array is the index of exactly the cell its
      division and remainder name, and that cell lies inside the grid. */
  lemma {:induction false} CellOfIndex(nrows: int, ncols: int, i: int)
    requires ncols > 0 && 0 <= i < nrows * ncols
    ensures 0 <= i / ncols < nrows
    ensures 0 <= i % ncols < ncols
    ensures Index(ncols, i / ncols, i % ncols) == i
  {
    var q := i / ncols;
    assert i == q * ncols + i % ncols;
    if q >= nrows {
      MulMonotone(nrows, q, ncols);
      assert false;
    }
  }

  /** Every cell of the grid has an index in [0, nrows * ncols). */
  lemma {:induction false} IndexInBounds(nrows: int, ncols: int, r: int, c: int)
    requires 0 <= r < nrows && 0 <= c < ncols
    ensures 0 <= Index(ncols, r, c) < nrows * ncols
  {
    MulMonotone(0, r, ncols);
    MulMonotone(r + 1, nrows, ncols);
  }

  /** Distinct cells of the grid have distinct indices. */
  lemma IndexInjective(ncols: int, r1: int, c1: int, r2: int, c2: int)
    requires 0 <= c1 < ncols && 0 <= c2 < ncols
    requires Index(ncols, r1, c1) == Index(ncols, r2, c2)
    ensures r1 == r2 && c1 == c2
  {
    IndexRowCol(ncols, r1, c1);
    IndexRowCol(ncols, r2, c2);
  }

  /** N undoes S and W undoes E (and the other way round). */
  lemma NeighbourInverses(ncols: int, i: int)
    ensures N(ncols, S(ncols, i)) == i && S(ncols, N(ncols, i)) == i
    ensures W(E(i)) == i && E(W(i)) == i
  {
  }

  /** The neighbour functions move by one row or one column in (r, c) terms. */
  lemma NeighbourOfIndex(ncols: int, r: int, c: int)
    ensures S(ncols, Index(ncols, r, c)) == Index(ncols, r + 1, c)
    ensures N(ncols, Index(ncols, r, c)) == Index(ncols, r - 1, c)
    ensures E(Index(ncols, r, c)) == Index(ncols, r, c + 1)
    ensures W(Index(ncols, r, c)) == Index(ncols, r, c - 1)
  {
  }

  /** For an interior cell the three cells it reads, E(i), S(i) and S(i)+1,
      lie inside the array. */
  lemma {:induction false} InteriorReadsInBounds(nrows: int, ncols: int, i: int)
    requires ncols > 0 && IsInterior(nrows, ncols, i)
    ensures 0 <= i < E(i) < S(ncols, i) + 1 < nrows * ncols
  {
    CellOfIndex(nrows, ncols, i);
    IndexInBounds(nrows, ncols, i / ncols + 1, i % ncols + 1);
  }

  /** For an interior cell the three cells it reads, E(i), S(i) and S(i)+1,
      are its east, south and south-east neighbours. */
  lemma {:induction false} InteriorNeighbours(nrows: int, ncols: int, i: int)
    requires ncols > 0 && IsInterior(nrows, ncols, i)
    ensures E(i) == Index(ncols, i / ncols, i % ncols + 1)
    ensures S(ncols, i) == Index(ncols, i / ncols + 1, i % ncols)
    ensures S(ncols, i) + 1 == Index(ncols, i / ncols + 1, i % ncols + 1)
    ensures E(i) / ncols == i / ncols && E(i) % ncols == i % ncols + 1
    ensures S(ncols, i) / ncols == i / ncols + 1 && S(ncols, i) % ncols == i % ncols
    ensures (S(ncols, i) + 1) / ncols == i / ncols + 1 && (S(ncols, i) + 1) % ncols == i % ncols + 1
  {
    var r, c := i / ncols, i % ncols;
    CellOfIndex(nrows, ncols, i);
    assert (r + 1) * ncols == r * ncols + ncols;
    assert E(i) == Index(ncols, r, c + 1);
    assert S(ncols, i) == Index(ncols, r + 1, c);
    IndexRowCol(ncols, r, c + 1);
    IndexRowCol(ncols, r + 1, c);
    IndexRowCol(ncols, r + 1, c + 1);
  }

  /** Inside the grid, a cell is a border cell exactly when it is not interior. */
  lemma BorderOrInterior(nrows: int, ncols: int, i: int)
    requires ncols > 0 && 0 <= i < nrows * ncols
    ensures IsBorder(nrows, ncols, i) <==> !IsInterior(nrows, ncols, i)
  {
    CellOfIndex(nrows, ncols, i);
  }

  // ---------------------------------------------------------------------------
  // Grid contents as values
  // ---------------------------------------------------------------------------

  /** Contents of a grid of n cells that all hold 0. */
  function Zeros(n: nat): (s: seq<int>)
    ensures |s| == n
  {
    seq(n, _ => 0)
  }

  /** Contents s with every border cell set to 1 and everything else kept. */
  function WithBorders(nrows: int, ncols: int, s: seq<int>): (t: seq<int>)
    requires ncols > 0 && |s| == nrows * ncols
    ensures |t| == |s|
  {
    seq(|s|, i requires 0 <= i < |s| => if IsBorder(nrows, ncols, i) then 1 else s[i])
  }

  /** The seeded grid at the start of every round: borders 1, all other cells 0. */
  function Seeded(nrows: int, ncols: int): (s: seq<int>)
    requires nrows >= 1 && ncols >= 1
    ensures |s| == nrows * ncols
  {
    MulMonotone(0, nrows, ncols);
    WithBorders(nrows, ncols, Zeros(nrows * ncols))
  }

  /** Seeding writes 1 into the border cells and changes nothing else. */
  lemma WithBordersCells(nrows: int, ncols: int, s: seq<int>, i: int)
    requires ncols > 0 && |s| == nrows * ncols && 0 <= i < |s|
    ensures IsBorder(nrows, ncols, i) ==> WithBorders(nrows, ncols, s)[i] == 1
    ensures !IsBorder(nrows, ncols, i) ==> WithBorders(nrows, ncols, s)[i] == s[i]
  {
  }

  /** Seeding twice is the same as seeding once. */
  lemma WithBordersIdempotent(nrows: int, ncols: int, s: seq<int>)
    requires ncols > 0 && |s| == nrows * ncols
    ensures WithBorders(nrows, ncols, WithBorders(nrows, ncols, s)) == WithBorders(nrows, ncols, s)
  {
  }

  /** In the seeded grid the border cells hold 1 and the interior cells hold 0. */
  lemma SeededCells(nrows: int, ncols: int, i: int)
    requires nrows >= 1 && ncols >= 1 && 0 <= i < nrows * ncols
    ensures IsBorder(nrows, ncols, i) ==> Seeded(nrows, ncols)[i] == 1
    ensures IsInterior(nrows, ncols, i) ==> Seeded(nrows, ncols)[i] == 0
  {
    BorderOrInterior(nrows, ncols, i);
  }

  /** Contents s part-way through seeding: the last-column cells of rows
      0 .. rowsDone-1 and the last-row cells of columns 0 .. colsDone-1 hold 1,
      everything else is kept. */
  ghost function PartlySeeded(nrows: int, ncols: int, s: seq<int>, rowsDone: int, colsDone: int): (t: seq<int>)
    requires ncols > 0 && |s| == nrows * ncols
    ensures |t| == |s|
  {
    seq(|s|, j requires 0 <= j < |s| =>
      if (j % ncols == ncols - 1 && j / ncols < rowsDone) || (j / ncols == nrows - 1 && j % ncols < colsDone)
      then 1 else s[j])
  }

  /** Before either loop runs, nothing has been seeded. */
  lemma {:induction false} PartlySeededNone(nrows: int, ncols: int, s: seq<int>)
    requires nrows >= 1 && ncols >= 1 && |s| == nrows * ncols
    ensures PartlySeeded(nrows, ncols, s, 0, 0) == s
  {
    forall j | 0 <= j < |s|
      ensures PartlySeeded(nrows, ncols, s, 0, 0)[j] == s[j]
    {
      CellOfIndex(nrows, ncols, j);
    }
  }

  /** Seeding the last-column cell of row k extends the first loop by one row. */
  lemma {:induction false} PartlySeededColumnStep(nrows: int, ncols: int, s: seq<int>, k: int, colsDone: int)
    requires ncols >= 1 && |s| == nrows * ncols && 0 <= k < nrows
    ensures 0 <= Index(ncols, k, ncols - 1) < |s|
    ensures PartlySeeded(nrows, ncols, s, k + 1, colsDone)
         == PartlySeeded(nrows, ncols, s, k, colsDone)[Index(ncols, k, ncols - 1) := 1]
  {
    var b := Index(ncols, k, ncols - 1);
    IndexInBounds(nrows, ncols, k, ncols - 1);
    IndexRowCol(ncols, k, ncols - 1);
    var t := PartlySeeded(nrows, ncols, s, k, colsDone)[b := 1];
    forall j | 0 <= j < |s|
      ensures PartlySeeded(nrows, ncols, s, k + 1, colsDone)[j] == t[j]
    {
      CellOfIndex(nrows, ncols, j);
    }
  }

  /** Seeding the last-row cell of column k extends the second loop by one
      column. */
  lemma {:induction false} PartlySeededRowStep(nrows: int, ncols: int, s: seq<int>, rowsDone: int, k: int)
    requires nrows >= 1 && |s| == nrows * ncols && 0 <= k < ncols
    ensures 0 <= Index(ncols, nrows - 1, k) < |s|
    ensures PartlySeeded(nrows, ncols, s, rowsDone, k + 1)
         == PartlySeeded(nrows, ncols, s, rowsDone, k)[Index(ncols, nrows - 1, k) := 1]
  {
    var b := Index(ncols, nrows - 1, k);
    IndexInBounds(nrows, ncols, nrows - 1, k);
    IndexRowCol(ncols, nrows - 1, k);
    var t := PartlySeeded(nrows, ncols, s, rowsDone, k)[b := 1];
    forall j | 0 <= j < |s|
      ensures PartlySeeded(nrows, ncols, s, rowsDone, k + 1)[j] == t[j]
    {
      CellOfIndex(nrows, ncols, j);
    }
  }

  /** After both loops every border cell has been seeded. */
  lemma {:induction false} PartlySeededAll(nrows: int, ncols: int, s: seq<int>)
    requires nrows >= 1 && ncols >= 1 && |s| == nrows * ncols
    ensures PartlySeeded(nrows, ncols, s, nrows, ncols - 1) == WithBorders(nrows, ncols, s)
  {
    forall j | 0 <= j < |s|
      ensures PartlySeeded(nrows, ncols, s, nrows, ncols - 1)[j] == WithBorders(nrows, ncols, s)[j]
    {
      CellOfIndex(nrows, ncols, j);
    }
  }

  // ---------------------------------------------------------------------------
  // The grid object
  // ---------------------------------------------------------------------------

  /** The state array and its dimensions. Only the `sum` of each cell is kept:
      the per-cell mutex and condition variable carry no data. */
  class Grid {
    const nrows: int
    const ncols: int
    const arrLen: int
    const sums: array<int>

    ghost predicate Valid()
      reads this
    {
      0 <= nrows && 0 <= ncols && arrLen == nrows * ncols && sums.Length == arrLen
    }

    /** Allocates an nr x nc grid and zero-fills every cell. */
    constructor (nr: int, nc: int)
      requires 0 <= nr && 0 <= nc
      ensures Valid() && fresh(sums)
      ensures nrows == nr && ncols == nc && arrLen == nr * nc
      ensures sums[..] == Zeros(nr * nc)
    {
      MulMonotone(0, nr, nc);
      nrows, ncols := nr, nc;
      arrLen := nr * nc;
      sums := new int[nr * nc];
      new;
      var i := 0;
      while i < arrLen
        invariant 0 <= i <= arrLen
        invariant forall j :: 0 <= j < i ==> sums[j] == 0
      {
        sums[i] := 0;
        i := i + 1;
      }
    }

    /** Sets the sum of every cell, border cells included, back to 0. */
    method Reset()
      requires Valid()
      modifies sums
      ensures sums[..] == Zeros(arrLen)
    {
      var i := 0;
      while i < arrLen
        invariant 0 <= i <= arrLen
        invariant forall j :: 0 <= j < i ==> sums[j] == 0
      {
        sums[i] := 0;
        i := i + 1;
      }
    }

    /** Writes 1 into every cell of the last column (first loop, all rows) and
        of the last row (second loop, every column but the last). */
    method InitBorders()
      requires Valid() && nrows >= 1 && ncols >= 1
      modifies sums
      ensures sums[..] == WithBorders(nrows, ncols, old(sums[..]))
    {
      ghost var s0 := sums[..];
      PartlySeededNone(nrows, ncols, s0);
      var i := 0;
      while i < nrows
        invariant 0 <= i <= nrows
        invariant sums[..] == PartlySeeded(nrows, ncols, s0, i, 0)
      {
        var bIdx := Index(ncols, i, ncols - 1);
        PartlySeededColumnStep(nrows, ncols, s0, i, 0);
        sums[bIdx] := 1;
        i := i + 1;
      }
      i := 0;
      while i < ncols - 1
        invariant 0 <= i <= ncols - 1
        invariant sums[..] == PartlySeeded(nrows, ncols, s0, nrows, i)
      {
        var bIdx := Index(ncols, nrows - 1, i);
        PartlySeededRowStep(nrows, ncols, s0, nrows, i);
        sums[bIdx] := 1;
        i := i + 1;
      }
      PartlySeededAll(nrows, ncols, s0);
    }
  }
}
