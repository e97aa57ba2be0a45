/** The reference definition of the binned spectrum: bin k holds the sum of
    the energies of exactly those grid cells whose folded radius rounds to k.
    Sums run over cells in row-major order, the order the accumulation loop
    visits them. */
module BinSums {
  import opened RadialBin
  import opened EnergyGrid

  /** What cell (i, j) adds to bin k: its energy if it lands there, else 0. */
  function Contribution(g: Grid, k: nat, i: nat, j: nat): real
    requires WellShaped(g)
    requires i < g.nx && j < g.ny
  {
    if CellBin(g.nx, g.ny, i, j) == k then g.cells[i][j] else 0.0
  }

  /** Bin k's share of the first jEnd cells of row i. */
  function RowBin(g: Grid, k: nat, i: nat, jEnd: nat): real
    requires WellShaped(g)
    requires i < g.nx && jEnd <= g.ny
  {
    if jEnd == 0 then 0.0
    else RowBin(g, k, i, jEnd - 1) + Contribution(g, k, i, jEnd - 1)
  }

  /** Bin k's share of the first iEnd rows. */
  function GridBin(g: Grid, k: nat, iEnd: nat): real
    requires WellShaped(g)
    requires iEnd <= g.nx
  {
    if iEnd == 0 then 0.0
    else GridBin(g, k, iEnd - 1) + RowBin(g, k, iEnd - 1, g.ny)
  }

  /** E(k): the energy of all cells whose radius rounds to k. */
  function BinEnergy(g: Grid, k: nat): (e: real)
    requires WellShaped(g)
    ensures IsNonNegativeGrid(g) ==> e >= 0.0
  {
    NonNegativeGridBins(g, k);
    GridBin(g, k, g.nx)
  }

  /** The full accumulator of K slots, slot k holding E(k). */
  function Histogram(g: Grid, K: nat): (h: seq<real>)
    requires WellShaped(g)
    ensures |h| == K
    ensures forall k :: 0 <= k < K ==> h[k] == BinEnergy(g, k)
  {
    seq(K, k requires 0 <= k < K => BinEnergy(g, k))
  }

  /** Sum of the first jEnd cells of row i. */
  function RowTotal(g: Grid, i: nat, jEnd: nat): real
    requires WellShaped(g)
    requires i < g.nx && jEnd <= g.ny
  {
    if jEnd == 0 then 0.0 else RowTotal(g, i, jEnd - 1) + g.cells[i][jEnd - 1]
  }

  /** Sum of the first iEnd rows. */
  function GridTotal(g: Grid, iEnd: nat): real
    requires WellShaped(g)
    requires iEnd <= g.nx
  {
    if iEnd == 0 then 0.0 else GridTotal(g, iEnd - 1) + RowTotal(g, iEnd - 1, g.ny)
  }

  /** Total spectral energy of the grid. */
  function TotalEnergy(g: Grid): real
    requires WellShaped(g)
  {
    GridTotal(g, g.nx)
  }

  /** Sum of a sequence of reals, last element peeled first. */
  function Sum(s: seq<real>): real
  {
    if |s| == 0 then 0.0 else Sum(s[..|s| - 1]) + s[|s| - 1]
  }

  /** Summing front-first gives the same total as summing back-first. */
  lemma {:induction false} SumFront(s: seq<real>)
    requires |s| > 0
    ensures Sum(s) == s[0] + Sum(s[1..])
  {
    if |s| > 1 {
      assert s[1..][..|s[1..]| - 1] == s[..|s| - 1][1..];
      SumFront(s[..|s| - 1]);
    }
  }

  // ---------------------------------------------------------------------
  // Sums over the first K bins of the per-cell, per-row and per-grid shares.

  function CellAcrossBins(g: Grid, i: nat, j: nat, K: nat): real
    requires WellShaped(g)
    requires i < g.nx && j < g.ny
  {
    if K == 0 then 0.0 else CellAcrossBins(g, i, j, K - 1) + Contribution(g, K - 1, i, j)
  }

  function RowAcrossBins(g: Grid, i: nat, jEnd: nat, K: nat): real
    requires WellShaped(g)
    requires i < g.nx && jEnd <= g.ny
  {
    if K == 0 then 0.0 else RowAcrossBins(g, i, jEnd, K - 1) + RowBin(g, K - 1, i, jEnd)
  }

  function GridAcrossBins(g: Grid, iEnd: nat, K: nat): real
    requires WellShaped(g)
    requires iEnd <= g.nx
  {
    if K == 0 then 0.0 else GridAcrossBins(g, iEnd, K - 1) + GridBin(g, K - 1, iEnd)
  }

  /** A cell's energy is counted once across the first K bins if its bin is
      among them, and not at all otherwise. */
  lemma {:induction false} CellCountedOnce(g: Grid, i: nat, j: nat, K: nat)
    requires WellShaped(g)
    requires i < g.nx && j < g.ny
    ensures CellAcrossBins(g, i, j, K) ==
      if CellBin(g.nx, g.ny, i, j) < K then g.cells[i][j] else 0.0
  {
    if K > 0 {
      CellCountedOnce(g, i, j, K - 1);
    }
  }

  /** Splitting off the last cell of a row, summed across bins. */
  lemma {:induction false} RowAcrossBinsStep(g: Grid, i: nat, jEnd: nat, K: nat)
    requires WellShaped(g)
    requires i < g.nx && 0 < jEnd <= g.ny
    ensures RowAcrossBins(g, i, jEnd, K) ==
      RowAcrossBins(g, i, jEnd - 1, K) + CellAcrossBins(g, i, jEnd - 1, K)
  {
    if K > 0 {
      RowAcrossBinsStep(g, i, jEnd, K - 1);
    }
  }

  lemma {:induction false} RowAcrossBinsEmpty(g: Grid, i: nat, K: nat)
    requires WellShaped(g)
    requires i < g.nx
    ensures RowAcrossBins(g, i, 0, K) == 0.0
  {
    if K > 0 {
      RowAcrossBinsEmpty(g, i, K - 1);
    }
  }

  /** Splitting off the last row, summed across bins. */
  lemma {:induction false} GridAcrossBinsStep(g: Grid, iEnd: nat, K: nat)
    requires WellShaped(g)
    requires 0 < iEnd <= g.nx
    ensures GridAcrossBins(g, iEnd, K) ==
      GridAcrossBins(g, iEnd - 1, K) + RowAcrossBins(g, iEnd - 1, g.ny, K)
  {
    if K > 0 {
      GridAcrossBinsStep(g, iEnd, K - 1);
    }
  }

  lemma {:induction false} GridAcrossBinsEmpty(g: Grid, K: nat)
    requires WellShaped(g)
    ensures GridAcrossBins(g, 0, K) == 0.0
  {
    if K > 0 {
      GridAcrossBinsEmpty(g, K - 1);
    }
  }

  /** A row whose cells all land below K is conserved across the first K bins. */
  lemma {:induction false} RowConserved(g: Grid, i: nat, jEnd: nat, K: nat)
    requires WellShaped(g)
    requires i < g.nx && jEnd <= g.ny
    requires forall j :: 0 <= j < jEnd ==> CellBin(g.nx, g.ny, i, j) < K
    ensures RowAcrossBins(g, i, jEnd, K) == RowTotal(g, i, jEnd)
  {
    if jEnd == 0 {
      RowAcrossBinsEmpty(g, i, K);
    } else {
      RowConserved(g, i, jEnd - 1, K);
      RowAcrossBinsStep(g, i, jEnd, K);
      CellCountedOnce(g, i, jEnd - 1, K);
    }
  }

  /** Rows whose cells all land below K are conserved across the first K bins. */
  lemma {:induction false} GridConserved(g: Grid, iEnd: nat, K: nat)
    requires WellShaped(g)
    requires iEnd <= g.nx
    requires forall i, j :: 0 <= i < iEnd && 0 <= j < g.ny ==> CellBin(g.nx, g.ny, i, j) < K
    ensures GridAcrossBins(g, iEnd, K) == GridTotal(g, iEnd)
  {
    if iEnd == 0 {
      GridAcrossBinsEmpty(g, K);
    } else {
      GridConserved(g, iEnd - 1, K);
      GridAcrossBinsStep(g, iEnd, K);
      RowConserved(g, iEnd - 1, g.ny, K);
    }
  }

  /** The first K slots of the histogram sum to the grid's share in those bins. */
  lemma {:induction false} HistogramSum(g: Grid, K: nat)
    requires WellShaped(g)
    ensures Sum(Histogram(g, K)) == GridAcrossBins(g, g.nx, K)
  {
    if K > 0 {
      assert Histogram(g, K)[..K - 1] == Histogram(g, K - 1);
      HistogramSum(g, K - 1);
    }
  }

  /** Conservation: when every cell lands inside the length-nx accumulator,
      the accumulator's slots add up to the total energy of the grid. */
  lemma EnergyConserved(g: Grid)
    requires WellShaped(g)
    requires AllBinsInRange(g.nx, g.ny)
    ensures Sum(Histogram(g, g.nx)) == TotalEnergy(g)
  {
    HistogramSum(g, g.nx);
    GridConserved(g, g.nx, g.nx);
  }

  // ---------------------------------------------------------------------
  // Bins fed by at most one cell.

  /** A row none of whose first jEnd cells feeds bin k adds nothing to it. */
  lemma {:induction false} RowBinUnfed(g: Grid, k: nat, i: nat, jEnd: nat)
    requires WellShaped(g)
    requires i < g.nx && jEnd <= g.ny
    requires forall j :: 0 <= j < jEnd ==> Contribution(g, k, i, j) == 0.0
    ensures RowBin(g, k, i, jEnd) == 0.0
  {
    if jEnd > 0 {
      RowBinUnfed(g, k, i, jEnd - 1);
    }
  }

  /** Rows none of whose cells feed bin k add nothing to it. */
  lemma {:induction false} GridBinUnfed(g: Grid, k: nat, iEnd: nat)
    requires WellShaped(g)
    requires iEnd <= g.nx
    requires forall i, j :: 0 <= i < iEnd && 0 <= j < g.ny ==> Contribution(g, k, i, j) == 0.0
    ensures GridBin(g, k, iEnd) == 0.0
  {
    if iEnd > 0 {
      GridBinUnfed(g, k, iEnd - 1);
      RowBinUnfed(g, k, iEnd - 1, g.ny);
    }
  }

  /** A bin no cell maps to keeps its initial value 0. */
  lemma EmptyBinIsZero(g: Grid, k: nat)
    requires WellShaped(g)
    requires forall i, j :: 0 <= i < g.nx && 0 <= j < g.ny ==> CellBin(g.nx, g.ny, i, j) != k
    ensures BinEnergy(g, k) == 0.0
  {
    GridBinUnfed(g, k, g.nx);
  }

  /** An all-zero energy grid gives an all-zero spectrum. */
  lemma ZeroGridZeroBins(g: Grid, k: nat)
    requires WellShaped(g)
    requires IsZeroGrid(g)
    ensures BinEnergy(g, k) == 0.0
  {
    GridBinUnfed(g, k, g.nx);
  }

  /** Row i of bin k when only cell (i0, j0) can feed it. */
  lemma {:induction false} RowBinIsolated(g: Grid, k: nat, i: nat, jEnd: nat, i0: nat, j0: nat)
    requires WellShaped(g)
    requires i < g.nx && jEnd <= g.ny && i0 < g.nx && j0 < g.ny
    requires forall i', j' :: 0 <= i' < g.nx && 0 <= j' < g.ny && (i' != i0 || j' != j0) ==>
      Contribution(g, k, i', j') == 0.0
    ensures RowBin(g, k, i, jEnd) ==
      if i == i0 && j0 < jEnd then Contribution(g, k, i0, j0) else 0.0
  {
    if jEnd > 0 {
      RowBinIsolated(g, k, i, jEnd - 1, i0, j0);
    }
  }

  /** The first iEnd rows of bin k when only cell (i0, j0) can feed it. */
  lemma {:induction false} GridBinIsolated(g: Grid, k: nat, iEnd: nat, i0: nat, j0: nat)
    requires WellShaped(g)
    requires iEnd <= g.nx && i0 < g.nx && j0 < g.ny
    requires forall i', j' :: 0 <= i' < g.nx && 0 <= j' < g.ny && (i' != i0 || j' != j0) ==>
      Contribution(g, k, i', j') == 0.0
    ensures GridBin(g, k, iEnd) == if i0 < iEnd then Contribution(g, k, i0, j0) else 0.0
  {
    if iEnd > 0 {
      GridBinIsolated(g, k, iEnd - 1, i0, j0);
      RowBinIsolated(g, k, iEnd - 1, g.ny, i0, j0);
    }
  }

  /** The DC bin: only cell (0, 0) has radius 0, so E(0) is that cell's
      energy (and 0 for a grid with no cells). */
  lemma DcBinIsOriginCell(g: Grid)
    requires WellShaped(g)
    ensures BinEnergy(g, 0) == if g.nx > 0 && g.ny > 0 then g.cells[0][0] else 0.0
  {
    if g.nx > 0 && g.ny > 0 {
      GridBinIsolated(g, 0, g.nx, 0, 0);
    } else {
      GridBinUnfed(g, 0, g.nx);
    }
  }

  /** A grid with energy in a single cell (a single Fourier mode) puts all of
      it into that cell's bin and nothing anywhere else. */
  lemma SingleModeConcentrates(g: Grid, i0: nat, j0: nat, k: nat)
    requires WellShaped(g)
    requires i0 < g.nx && j0 < g.ny
    requires forall i, j :: 0 <= i < g.nx && 0 <= j < g.ny && (i != i0 || j != j0) ==>
      g.cells[i][j] == 0.0
    ensures BinEnergy(g, k) ==
      if k == CellBin(g.nx, g.ny, i0, j0) then g.cells[i0][j0] else 0.0
  {
    GridBinIsolated(g, k, g.nx, i0, j0);
  }

  // ---------------------------------------------------------------------
  // Non-negativity.

  lemma {:induction false} RowBinNonNegative(g: Grid, k: nat, i: nat, jEnd: nat)
    requires WellShaped(g) && IsNonNegativeGrid(g)
    requires i < g.nx && jEnd <= g.ny
    ensures RowBin(g, k, i, jEnd) >= 0.0
  {
    if jEnd > 0 {
      RowBinNonNegative(g, k, i, jEnd - 1);
    }
  }

  lemma {:induction false} GridBinNonNegative(g: Grid, k: nat, iEnd: nat)
    requires WellShaped(g) && IsNonNegativeGrid(g)
    requires iEnd <= g.nx
    ensures GridBin(g, k, iEnd) >= 0.0
  {
    if iEnd > 0 {
      GridBinNonNegative(g, k, iEnd - 1);
      RowBinNonNegative(g, k, iEnd - 1, g.ny);
    }
  }

  /** Non-negative cell energies give a non-negative E(k). */
  lemma NonNegativeGridBins(g: Grid, k: nat)
    requires WellShaped(g)
    ensures IsNonNegativeGrid(g) ==> GridBin(g, k, g.nx) >= 0.0
  {
    if IsNonNegativeGrid(g) {
      GridBinNonNegative(g, k, g.nx);
    }
  }
}
