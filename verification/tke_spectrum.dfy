/** The turbulent kinetic energy spectrum routine: each cell's spectral
    energy is added into the slot of a zero-initialised, length-nx
    accumulator named by its radial bin, and the accumulator and the
    wave-number axis are returned without their DC entry (index 0). */
module TkeSpectrum {
  import opened Folding
  import opened RadialBin
  import opened EnergyGrid
  import opened BinSums

  /** The one failure of the routine: a cell whose bin lies past the end of
      the accumulator, reported with the offending index, the accumulator
      size and the cell. */
  datatype SpectrumError = IndexOutOfRange(index: nat, size: nat, row: nat, col: nat)

  datatype Result<T> = Ok(value: T) | Err(error: SpectrumError)

  /** Completion of a step that produces no value. */
  datatype Outcome = Pass | Fail(error: SpectrumError)

  /** The two returned sequences: E(k) and the wave number of each bin. */
  datatype Spectrum = Spectrum(energy: seq<real>, waveNumbers: seq<real>)

  /** Wave number of each accumulator slot: k * knorm for k in [0, nx). */
  function WaveAxis(nx: nat, knorm: real): (w: seq<real>)
    ensures |w| == nx
    ensures forall k :: 0 <= k < nx ==> w[k] == k as real * knorm
  {
    seq(nx, k requires 0 <= k < nx => k as real * knorm)
  }

  /** Length of a sequence of n elements once its first element is dropped
      (an empty sequence stays empty). */
  function DroppedLength(n: nat): nat
  {
    if n == 0 then 0 else n - 1
  }

  /** Everything after the first element: `s[1:]`, which is empty for an
      empty s. Position m of the result is position m + 1 of s. */
  function DropFirst(s: seq<real>): (r: seq<real>)
    ensures |r| == DroppedLength(|s|)
    ensures forall m :: 0 <= m < |r| ==> r[m] == s[m + 1]
  {
    if |s| == 0 then [] else s[1..]
  }

  /** Every cell visited before (i, j) in row-major order lands inside the
      accumulator. */
  ghost predicate InRangeBefore(nx: nat, ny: nat, i: nat, j: nat)
  {
    forall i': nat, j': nat :: i' < nx && j' < ny && (i' < i || (i' == i && j' < j)) ==>
      CellBin(nx, ny, i', j') < nx
  }

  lemma InRangeBeforeNextCell(nx: nat, ny: nat, i: nat, j: nat)
    requires i < nx && j < ny
    requires InRangeBefore(nx, ny, i, j)
    requires CellBin(nx, ny, i, j) < nx
    ensures InRangeBefore(nx, ny, i, j + 1)
  {
  }

  lemma InRangeBeforeNextRow(nx: nat, ny: nat, i: nat)
    requires InRangeBefore(nx, ny, i, ny)
    ensures InRangeBefore(nx, ny, i + 1, 0)
  {
  }

  /** The accumulation loop over an energy grid. It succeeds exactly when
      every cell's bin fits the length-nx accumulator, and then slot k holds
      E(k), the energy of exactly the cells whose radius rounds to k.
      Otherwise it fails at the first cell, in row-major order, whose bin is
      out of range. */
  method Accumulate(g: Grid) returns (r: Result<seq<real>>)
    requires WellShaped(g)
    ensures r.Ok? <==> AllBinsInRange(g.nx, g.ny)
    ensures r.Ok? ==> |r.value| == g.nx
    ensures r.Ok? ==> forall k :: 0 <= k < g.nx ==> r.value[k] == BinEnergy(g, k)
    ensures r.Err? ==>
      var e := r.error;
      e.row < g.nx && e.col < g.ny && e.size == g.nx &&
      e.index == CellBin(g.nx, g.ny, e.row, e.col) && e.index >= g.nx &&
      InRangeBefore(g.nx, g.ny, e.row, e.col)
  {
    var acc := new real[g.nx](_ => 0.0);
    var i := 0;
    while i < g.nx
      invariant 0 <= i <= g.nx
      invariant forall k :: 0 <= k < g.nx ==> acc[k] == GridBin(g, k, i)
      invariant InRangeBefore(g.nx, g.ny, i, 0)
    {
      var failure := AccumulateRow(g, acc, i);
      if failure.Fail? {
        return Err(failure.error);
      }
      InRangeBeforeNextRow(g.nx, g.ny, i);
      i := i + 1;
    }
    r := Ok(acc[..]);
  }

  /** One pass of the inner loop: row i of the grid is added into the
      accumulator, stopping at the first cell whose bin is out of range. */
  method AccumulateRow(g: Grid, acc: array<real>, i: nat) returns (r: Outcome)
    requires WellShaped(g)
    requires i < g.nx && acc.Length == g.nx
    requires InRangeBefore(g.nx, g.ny, i, 0)
    modifies acc
    ensures r.Pass? ==> InRangeBefore(g.nx, g.ny, i, g.ny)
    ensures r.Pass? ==> forall k :: 0 <= k < g.nx ==> acc[k] == old(acc[k]) + RowBin(g, k, i, g.ny)
    ensures r.Fail? ==>
      var e := r.error;
      e.row == i && e.col < g.ny && e.size == g.nx &&
      e.index == CellBin(g.nx, g.ny, e.row, e.col) && e.index >= g.nx &&
      InRangeBefore(g.nx, g.ny, e.row, e.col)
  {
    var rkx := Fold(i, g.nx);
    var j := 0;
    while j < g.ny
      invariant 0 <= j <= g.ny
      invariant forall k :: 0 <= k < g.nx ==> acc[k] == old(acc[k]) + RowBin(g, k, i, j)
      invariant InRangeBefore(g.nx, g.ny, i, j)
    {
      var rky := Fold(j, g.ny);
      var kIndex := RoundSqrt(rkx * rkx + rky * rky);
      assert kIndex == CellBin(g.nx, g.ny, i, j);
      if kIndex >= g.nx {
        return Fail(IndexOutOfRange(kIndex, g.nx, i, j));
      }
      acc[kIndex] := acc[kIndex] + g.cells[i][j];
      InRangeBeforeNextCell(g.nx, g.ny, i, j);
      j := j + 1;
    }
    r := Pass;
  }

  /** The spectrum of an energy grid, with wave-number unit knorm: the
      accumulator and the wave-number axis with their DC entry dropped.
      On success slot m of the spectrum holds E(m + 1), the wave numbers are
      (m + 1) * knorm, and the spectrum adds up to the total energy minus the
      energy of cell (0, 0), the only cell in the dropped bin. */
  method ComputeTkeSpectrum(g: Grid, knorm: real) returns (r: Result<Spectrum>)
    requires WellShaped(g)
    ensures r.Ok? <==> AllBinsInRange(g.nx, g.ny)
    ensures r.Ok? ==>
      |r.value.energy| == DroppedLength(g.nx) && |r.value.waveNumbers| == DroppedLength(g.nx)
    ensures r.Ok? ==> forall m :: 0 <= m < |r.value.energy| ==>
      r.value.energy[m] == BinEnergy(g, m + 1)
    ensures r.Ok? ==> forall m :: 0 <= m < |r.value.waveNumbers| ==>
      r.value.waveNumbers[m] == (m + 1) as real * knorm
    ensures r.Ok? ==>
      (Sum(r.value.energy) ==
        TotalEnergy(g) - (if g.nx > 0 && g.ny > 0 then g.cells[0][0] else 0.0))
    ensures r.Err? ==>
      var e := r.error;
      e.row < g.nx && e.col < g.ny && e.size == g.nx &&
      e.index == CellBin(g.nx, g.ny, e.row, e.col) && e.index >= g.nx &&
      InRangeBefore(g.nx, g.ny, e.row, e.col)
  {
    var acc := Accumulate(g);
    match acc {
      case Err(e) =>
        r := Err(e);
      case Ok(h) =>
        assert h == Histogram(g, g.nx);
        EnergyConserved(g);
        DcBinIsOriginCell(g);
        if g.nx > 0 {
          SumFront(h);
        }
        r := Ok(Spectrum(DropFirst(h), DropFirst(WaveAxis(g.nx, knorm))));
    }
  }

  /** The spectrum of a grid of Fourier modes: the per-cell energy
      0.5 * |z|^2 is taken first, so every returned bin is non-negative; the
      rest is as for an energy grid. */
  method ComputeTkeSpectrumOfModes(u: ModeGrid, knorm: real) returns (r: Result<Spectrum>)
    requires ModesWellShaped(u)
    ensures r.Ok? <==> AllBinsInRange(u.nx, u.ny)
    ensures r.Ok? ==>
      |r.value.energy| == DroppedLength(u.nx) && |r.value.waveNumbers| == DroppedLength(u.nx)
    ensures r.Ok? ==> forall m :: 0 <= m < |r.value.energy| ==>
      r.value.energy[m] == BinEnergy(Energies(u), m + 1)
    ensures r.Ok? ==> forall m :: 0 <= m < |r.value.energy| ==> r.value.energy[m] >= 0.0
    ensures r.Ok? ==> forall m :: 0 <= m < |r.value.waveNumbers| ==>
      r.value.waveNumbers[m] == (m + 1) as real * knorm
    ensures r.Ok? ==>
      (Sum(r.value.energy) ==
        TotalEnergy(Energies(u)) -
          (if u.nx > 0 && u.ny > 0 then CellEnergy(u.modes[0][0]) else 0.0))
    ensures r.Err? ==>
      var e := r.error;
      e.row < u.nx && e.col < u.ny && e.size == u.nx &&
      e.index == CellBin(u.nx, u.ny, e.row, e.col) && e.index >= u.nx &&
      InRangeBefore(u.nx, u.ny, e.row, e.col)
  {
    var g := Energies(u);
    r := ComputeTkeSpectrum(g, knorm);
  }

  /** With a positive unit, the returned wave numbers strictly increase. */
  lemma WaveNumbersIncrease(nx: nat, knorm: real, a: nat, b: nat)
    requires knorm > 0.0
    requires a < b < DroppedLength(nx)
    ensures DropFirst(WaveAxis(nx, knorm))[a] < DropFirst(WaveAxis(nx, knorm))[b]
  {
    var w := DropFirst(WaveAxis(nx, knorm));
    assert w[a] == (a + 1) as real * knorm;
    assert w[b] == (b + 1) as real * knorm;
    assert w[b] - w[a] == (b - a) as real * knorm;
  }

  /** An all-zero energy grid yields an all-zero spectrum. */
  lemma ZeroGridZeroSpectrum(g: Grid, m: nat)
    requires WellShaped(g) && IsZeroGrid(g)
    requires m < DroppedLength(g.nx)
    ensures DropFirst(Histogram(g, g.nx))[m] == 0.0
  {
    ZeroGridZeroBins(g, m + 1);
  }
}
