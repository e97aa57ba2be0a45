# Turbulent kinetic energy spectrum binning

A Dafny model of `compute_tke_spectrum` in `utils.py`, the one numeric routine
of the repository's utility module. Given a 2D grid of Fourier modes of a
velocity component, the routine turns each mode into a point-wise spectral
energy `0.5 * |uf|^2`, folds each row index `i` and column index `j` into a
signed frequency (`rkx`, `rky`), rounds the radius `sqrt(rkx^2 + rky^2)` to an
integer bin, adds the cell's energy into a zero-initialised accumulator of
length `nx`, and returns the accumulator and the wave-number axis
`knorm * [0, nx)`, both without their DC entry (index 0).

The model is split along those steps:

- `Folding` (`folding.dfy`): the signed frequency of an index, `Fold`.
- `RadialBin` (`radial_bin.dfy`): the bin of a cell, `round(sqrt(n))` stated
  exactly on integers as the unique `k` with `(k == 0 || k*k - k < n) && n <= k*k + k`;
  bounds safety (every bin is below `nx` when `ny <= nx`) and the overflow once
  `ny >= 2*nx` (for instance `nx = 4`, `ny = 16`).
- `EnergyGrid` (`energy_grid.dfy`): the grid of Fourier modes as pairs of
  reals, the energy grid, and the per-cell energy.
- `BinSums` (`bin_sums.dfy`): the reference definition of the spectrum, bin
  `k` being the sum of the energies of exactly the cells whose bin is `k`,
  with conservation of energy, the DC bin, empty bins, single-mode grids and
  non-negativity.
- `TkeSpectrum` (`tke_spectrum.dfy`): the imperative accumulation loop over an
  `array<real>`, tied to the reference definition by its loop invariants, and
  the routine's output.

Behaviour kept from the code:

- The fold test `i > nx / 2` uses true division; it is `2 * i > nx` here, so
  odd axis lengths are exact.
- A bin index at or past `nx` is an indexing failure in the source. The model
  returns `Err(IndexOutOfRange(...))` at the first such cell in row-major
  order, and succeeds exactly when every cell's bin is below `nx`.
- For `nx = 0` the slices `[1:]` of empty sequences are empty, so the output
  length is `nx - 1` for `nx >= 1` and `0` for `nx = 0` (`DroppedLength`).
- `np.round` rounds half to even. The squared radius is an integer, so its
  square root is never exactly halfway between two integers
  (`RadialBin.RoundSqrtIsRounding`), and any rounding mode gives the same bin.

## Model

| member | source | states |
|---|---|---|
| `Folding.Fold` | utils.py:95-102 | the signed frequency of index `i` on an axis of length `n` lies in `(-n/2, n/2]`, is congruent to `i` modulo `n`, is `i` or `i - n`, and is 0 exactly at `i = 0` |
| `Folding.FoldUnique` | utils.py:95-102 | any integer in `(-n/2, n/2]` congruent to `i` modulo `n` equals the fold of `i`: the fold is the canonical signed frequency |
| `RadialBin.RoundSqrt` | utils.py:103-104 | the bin of a squared radius `n` is a `k` with `(k == 0 or k*k - k < n)` and `n <= k*k + k`, i.e. the integer nearest to `sqrt(n)` |
| `RadialBin.NearestRootUnique` | utils.py:103-104 | exactly one natural number satisfies the nearest-root condition, so the bin is well defined |
| `RadialBin.RoundSqrtIsRounding` | utils.py:103-104 | for the non-negative real square root `s` of `n`, the bin lies strictly within 1/2 of `s`: it is `round(s)` and no tie can occur |
| `RadialBin.RoundSqrtAtMost` | utils.py:103-104 | the bin is at most `m` exactly when `n <= m*m + m` |
| `RadialBin.RoundSqrtZeroIff` | utils.py:103-104 | the bin is 0 exactly when the squared radius is 0 |
| `RadialBin.SquaredRadius` | utils.py:103 | the squared radius `rkx*rkx + rky*rky` of cell `(i, j)` is a natural number, 0 exactly for cell `(0, 0)` |
| `RadialBin.CellBin` | utils.py:95-104 | the slot of cell `(i, j)` is the integer nearest to the radius of its folded frequency pair, and it is slot 0 exactly for cell `(0, 0)` |
| `RadialBin.NarrowGridInRange` | utils.py:94-105 | when `ny <= nx`, every cell's bin is below `nx`, so every accumulator write is in range |
| `RadialBin.WideGridOverflows` | utils.py:94-105 | when `nx >= 1` and `ny >= 2*nx`, some cell's bin is at least `nx`, so the accumulator write fails |
| `RadialBin.FourBySixteenOverflows` | utils.py:94-105 | on a 4 by 16 grid cell `(0, 8)` has bin 8, past the last slot 3 |
| `EnergyGrid.CellEnergy` | utils.py:87 | the point-wise energy `0.5 * (re*re + im*im)` of a mode is never negative |
| `EnergyGrid.Energies` | utils.py:84-87 | the energy grid has the shape of the mode grid, holds the energy of the mode at each position, and is non-negative everywhere |
| `BinSums.EnergyConserved` | utils.py:94-105 | when every bin is below `nx`, the accumulator slots add up to the total energy of the grid |
| `BinSums.DcBinIsOriginCell` | utils.py:94-105 | bin 0 holds exactly the energy of cell `(0, 0)` (0 for a grid without cells) |
| `BinSums.EmptyBinIsZero` | utils.py:94-105 | a bin no cell maps to keeps its initial value 0 |
| `BinSums.ZeroGridZeroBins` | utils.py:94-105 | an all-zero energy grid gives 0 in every bin |
| `BinSums.SingleModeConcentrates` | utils.py:74-77 | a grid with energy in one cell puts all of it into that cell's bin and nothing into any other bin |
| `BinSums.BinEnergy` | utils.py:74-77 | `E(k)`, the energy of the cells whose radius rounds to `k`, is never negative when no cell energy is negative |
| `BinSums.Histogram` | utils.py:94-105 | the reference accumulator of `K` slots has length `K` and holds `E(k)` in slot `k` |
| `TkeSpectrum.WaveAxis` | utils.py:93 | the wave-number axis has `nx` entries, entry `k` being `k * knorm` |
| `TkeSpectrum.DropFirst` | utils.py:110 | the slice `[1:]` is one shorter than a non-empty sequence (empty for an empty one) and its entry `m` is entry `m + 1` of the sequence |
| `TkeSpectrum.Accumulate` | utils.py:94-105 | the loop succeeds exactly when every bin is below `nx`; then slot `k` is the sum of the energies of exactly the cells whose bin is `k`; otherwise it fails at the first out-of-range cell in row-major order, reporting its bin, the size `nx` and the cell |
| `TkeSpectrum.AccumulateRow` | utils.py:99-105 | one pass of the inner loop adds to each slot `k` the energies of the cells of row `i` whose bin is `k`, or stops at the first cell of the row whose bin is at least `nx`, all earlier cells being in range |
| `TkeSpectrum.ComputeTkeSpectrum` | utils.py:69-110 | succeeds exactly when every bin is below `nx`; both outputs have length `nx - 1` (0 when `nx = 0`); slot `m` is the energy of bin `m + 1`; wave number `m` is `(m + 1) * knorm`; the spectrum sums to the total energy minus the energy of cell `(0, 0)`; failures as for the loop |
| `TkeSpectrum.ComputeTkeSpectrumOfModes` | utils.py:84-110 | on a grid of Fourier modes, succeeds exactly when every bin is below `nx`; both outputs have length `nx - 1` (0 when `nx = 0`); slot `m` is the energy of bin `m + 1` of the mode energies and is non-negative; wave number `m` is `(m + 1) * knorm`; the spectrum sums to the total mode energy minus the energy of mode `(0, 0)`; failures as for the loop |
| `TkeSpectrum.WaveNumbersIncrease` | utils.py:93-110 | with `knorm > 0` the returned wave numbers strictly increase |
| `TkeSpectrum.ZeroGridZeroSpectrum` | utils.py:94-110 | an all-zero energy grid yields an all-zero returned spectrum |

## Left out

- The Fourier transform `torch.fft.fftn(u, norm='ortho')` (utils.py:84) is a
  floating-point library call; the model starts from the grid of modes it
  returns (`ModeGrid`) or from the energy grid.
- `knorm` (utils.py:88-90) is a `real` parameter: computing it needs `pi` and a
  floating-point square root of the domain extents `lx`, `ly`.
- Floating-point rounding of the energies, the square root and the sums is not
  modelled; arithmetic is exact over `real` and `int`.
- The unused `nt = nx * ny` (utils.py:82) and the commented-out plotting lines
  (utils.py:106-109) have no effect and are not modelled.
- The numba `@jit(nopython=True)` decorator (utils.py:68) is not modelled. The
  model follows the routine's plain Python and torch semantics, under which a
  write past the end of the accumulator raises an indexing error.
- EnergyGrid.CellEnergy: states non-negativity only; that the energy is 0
  exactly for the zero mode holds but is not stated.
- BinSums.BinEnergy: its own contract states non-negativity only; which cells
  it adds up is stated by `TkeSpectrum.Accumulate`, `BinSums.EnergyConserved`,
  `BinSums.DcBinIsOriginCell`, `BinSums.EmptyBinIsZero` and
  `BinSums.SingleModeConcentrates`.
- `load_yaml`, `get_cur_time`, `parse_args` (utils.py:18-25, 54-65): file
  reading, the clock and command-line parsing.
- `init_model`, `init_dataset` (utils.py:28-51): dispatch by name to model and
  dataset classes that are not part of this model.
- `save_pyg_to_vtk` (utils.py:113-144) and `plot_3d_prediction`
  (utils.py:148-187): mesh file output and plotting.
