/** The inputs of the spectrum routine once the Fourier transform has been
    taken: a grid of complex Fourier modes, and the grid of per-cell spectral
    energies derived from it. */
module EnergyGrid {

  /** A rectangular nx-by-ny grid of reals, stored row by row. The shape is
      carried explicitly so that a grid with no rows still has a width. */
  datatype Grid = Grid(nx: nat, ny: nat, cells: seq<seq<real>>)

  /** The grid has exactly nx rows of ny cells each. */
  predicate WellShaped(g: Grid)
  {
    |g.cells| == g.nx && forall i :: 0 <= i < |g.cells| ==> |g.cells[i]| == g.ny
  }

  /** Every cell of the grid is zero. */
  predicate IsZeroGrid(g: Grid)
    requires WellShaped(g)
  {
    forall i, j :: 0 <= i < g.nx && 0 <= j < g.ny ==> g.cells[i][j] == 0.0
  }

  /** Every cell of the grid is non-negative. */
  predicate IsNonNegativeGrid(g: Grid)
    requires WellShaped(g)
  {
    forall i, j :: 0 <= i < g.nx && 0 <= j < g.ny ==> g.cells[i][j] >= 0.0
  }

  /** A complex Fourier coefficient as its real and imaginary parts. */
  datatype Complex = Complex(re: real, im: real)

  /** A rectangular nx-by-ny grid of Fourier coefficients. */
  datatype ModeGrid = ModeGrid(nx: nat, ny: nat, modes: seq<seq<Complex>>)

  predicate ModesWellShaped(u: ModeGrid)
  {
    |u.modes| == u.nx && forall i :: 0 <= i < |u.modes| ==> |u.modes[i]| == u.ny
  }

  /** Point-wise kinetic energy of one mode, half the real part of z times its
      conjugate: 0.5 * (re*re + im*im). It is never negative. */
  function CellEnergy(z: Complex): (e: real)
    ensures e >= 0.0
  {
    SquareNonNegative(z.re);
    SquareNonNegative(z.im);
    0.5 * (z.re * z.re + z.im * z.im)
  }

  /** A real square is never negative. */
  lemma SquareNonNegative(x: real)
    ensures x * x >= 0.0
  {
    if x < 0.0 {
      assert x * x == (-x) * (-x);
    }
  }

  /** The energy grid of a mode grid: same shape, each cell the energy of the
      mode at the same position, so every cell is non-negative. */
  function Energies(u: ModeGrid): (g: Grid)
    requires ModesWellShaped(u)
    ensures WellShaped(g) && g.nx == u.nx && g.ny == u.ny
    ensures forall i, j :: 0 <= i < g.nx && 0 <= j < g.ny ==>
      g.cells[i][j] == CellEnergy(u.modes[i][j])
    ensures IsNonNegativeGrid(g)
  {
    Grid(u.nx, u.ny,
      seq(u.nx, i requires 0 <= i < u.nx =>
        seq(u.ny, j requires 0 <= j < u.ny => CellEnergy(u.modes[i][j]))))
  }
}
