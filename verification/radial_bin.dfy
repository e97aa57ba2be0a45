/** Radial binning: a signed wave-number pair (rkx, rky) is assigned the
    integer bin round(sqrt(rkx*rkx + rky*rky)). The squared radius is an
    integer, so the rounding is stated exactly with integer arithmetic. */
module RadialBin {
  import opened Folding

  /** k is the integer nearest to sqrt(n): (k - 1/2)^2 <= n < (k + 1/2)^2,
      which for an integer n reads k*k - k < n <= k*k + k; for k = 0 the
      lower bound is vacuous because sqrt(n) is never negative. */
  predicate IsNearestRoot(n: nat, k: nat)
  {
    (k == 0 || k * k - k < n) && n <= k * k + k
  }

  /** Upward search for the nearest root, starting from a k that is not yet
      past it. */
  function NearestRootFrom(n: nat, k: nat): (r: nat)
    requires k == 0 || k * k - k < n
    ensures IsNearestRoot(n, r)
    ensures k <= r
    decreases n - k
  {
    if n <= k * k + k then k else NearestRootFrom(n, k + 1)
  }

  /** round(sqrt(n)) for a natural number n. */
  function RoundSqrt(n: nat): (k: nat)
    ensures IsNearestRoot(n, k)
  {
    NearestRootFrom(n, 0)
  }

  /** k*k - k grows with k on the naturals. */
  lemma {:induction false} LowerEdgeMonotone(a: nat, b: nat)
    requires a <= b
    ensures a * a - a <= b * b - b
    decreases b - a
  {
    if a < b {
      LowerEdgeMonotone(a, b - 1);
      var c := b - 1;
      assert b * b - b == c * c - c + 2 * c;
    }
  }

  /** Only one natural number is nearest to sqrt(n): the bin is well defined
      and RoundSqrt computes it. */
  lemma NearestRootUnique(n: nat, k: nat)
    requires IsNearestRoot(n, k)
    ensures k == RoundSqrt(n)
  {
    var r := RoundSqrt(n);
    if k < r {
      assert (k + 1) * (k + 1) - (k + 1) == k * k + k;
      LowerEdgeMonotone(k + 1, r);
    } else if r < k {
      assert (r + 1) * (r + 1) - (r + 1) == r * r + r;
      LowerEdgeMonotone(r + 1, k);
    }
  }

  /** The bin bound: round(sqrt(n)) <= m exactly when n <= m*m + m. */
  lemma RoundSqrtAtMost(n: nat, m: nat)
    ensures RoundSqrt(n) <= m <==> n <= m * m + m
  {
    var k := RoundSqrt(n);
    if k <= m {
      LowerEdgeMonotone(k + 1, m + 1);
      assert (k + 1) * (k + 1) - (k + 1) == k * k + k;
      assert (m + 1) * (m + 1) - (m + 1) == m * m + m;
    } else {
      LowerEdgeMonotone(m + 1, k);
      assert (m + 1) * (m + 1) - (m + 1) == m * m + m;
    }
  }

  /** Squaring is monotone on non-negative reals. */
  lemma SquareMonotone(a: real, b: real)
    requires 0.0 <= a <= b
    ensures a * a <= b * b
  {
    assert b * b - a * a == (b - a) * (b + a);
  }

  /** The integer bin is what rounding the real square root gives: if s is
      the non-negative square root of n, then RoundSqrt(n) lies strictly
      within 1/2 of s. The inequality is strict on both sides, so a tie
      (s exactly halfway between two integers) never occurs and the rounding
      mode does not matter. */
  lemma RoundSqrtIsRounding(n: nat, s: real)
    requires 0.0 <= s
    requires s * s == n as real
    ensures RoundSqrt(n) as real - 0.5 < s < RoundSqrt(n) as real + 0.5
  {
    var k := RoundSqrt(n);
    var kr := k as real;
    assert (kr + 0.5) * (kr + 0.5) == kr * kr + kr + 0.25;
    assert (kr - 0.5) * (kr - 0.5) == kr * kr - kr + 0.25;
    if s >= kr + 0.5 {
      SquareMonotone(kr + 0.5, s);
    }
    if k > 0 && s <= kr - 0.5 {
      SquareMonotone(s, kr - 0.5);
    }
  }

  /** Bin 0 holds exactly the squared radius 0. */
  lemma RoundSqrtZeroIff(n: nat)
    ensures RoundSqrt(n) == 0 <==> n == 0
  {
    var k := RoundSqrt(n);
    if k > 0 {
      assert k * k >= k;
    }
  }

  /** An integer square is positive away from zero. */
  lemma NonZeroSquarePositive(x: int)
    ensures x != 0 ==> x * x > 0
  {
  }

  /** Squared radius rkx*rkx + rky*rky of the signed frequency pair of grid
      cell (i, j). It is 0 only for cell (0, 0), whose pair is (0, 0). */
  function SquaredRadius(nx: nat, ny: nat, i: nat, j: nat): (n: nat)
    requires i < nx && j < ny
    ensures n == 0 <==> i == 0 && j == 0
  {
    var rkx := Fold(i, nx);
    var rky := Fold(j, ny);
    NonZeroSquarePositive(rkx);
    NonZeroSquarePositive(rky);
    rkx * rkx + rky * rky
  }

  /** The accumulator slot that grid cell (i, j) adds its energy into: the
      integer nearest to the radius of its signed frequency pair. The DC bin
      0 receives cell (0, 0) and no other cell. */
  function CellBin(nx: nat, ny: nat, i: nat, j: nat): (k: nat)
    requires i < nx && j < ny
    ensures IsNearestRoot(SquaredRadius(nx, ny, i, j), k)
    ensures k == 0 <==> i == 0 && j == 0
  {
    RoundSqrtZeroIff(SquaredRadius(nx, ny, i, j));
    RoundSqrt(SquaredRadius(nx, ny, i, j))
  }

  /** Every cell of an nx-by-ny grid lands in a slot of the length-nx
      accumulator. */
  ghost predicate AllBinsInRange(nx: nat, ny: nat)
  {
    forall i: nat, j: nat :: i < nx && j < ny ==> CellBin(nx, ny, i, j) < nx
  }

  /** An axis fold never exceeds half the axis length in magnitude, so four
      times its square is at most n*n. */
  lemma FoldSquareBound(i: nat, n: nat)
    requires i < n
    ensures 4 * (Fold(i, n) * Fold(i, n)) <= n * n
  {
    var r := Fold(i, n);
    var a: nat := if r < 0 then -2 * r else 2 * r;
    assert a * a == 4 * (r * r);
    NatSquareMonotone(a, n);
  }

  /** Squaring is monotone on the naturals. */
  lemma NatSquareMonotone(a: nat, b: nat)
    requires a <= b
    ensures a * a <= b * b
  {
    assert b * b - a * a == (b - a) * (b + a);
  }

  /** The squared radius of any cell is at most (nx*nx + ny*ny) / 4. */
  lemma SquaredRadiusBound(nx: nat, ny: nat, i: nat, j: nat)
    requires i < nx && j < ny
    ensures 4 * SquaredRadius(nx, ny, i, j) <= nx * nx + ny * ny
  {
    FoldSquareBound(i, nx);
    FoldSquareBound(j, ny);
  }

  /** For nx >= 2, a quarter of 2*nx*nx stays within the last bin's upper edge. */
  lemma HalfSquareWithinLastBin(nx: nat, n: nat)
    requires nx >= 2
    requires 4 * n <= 2 * (nx * nx)
    ensures n <= (nx - 1) * (nx - 1) + (nx - 1)
  {
    var m := nx - 2;
    assert nx * nx == m * m + 4 * m + 4;
    assert (nx - 1) * (nx - 1) + (nx - 1) == m * m + 3 * m + 2;
  }

  /** Bounds safety for one cell of a grid with ny <= nx. */
  lemma NarrowCellInRange(nx: nat, ny: nat, i: nat, j: nat)
    requires ny <= nx
    requires i < nx && j < ny
    ensures CellBin(nx, ny, i, j) < nx
  {
    var n := SquaredRadius(nx, ny, i, j);
    SquaredRadiusBound(nx, ny, i, j);
    NatSquareMonotone(ny, nx);
    if nx == 1 {
      assert Fold(i, nx) == 0 && Fold(j, ny) == 0;
      RoundSqrtZeroIff(n);
    } else {
      HalfSquareWithinLastBin(nx, n);
      RoundSqrtAtMost(n, nx - 1);
    }
  }

  /** Bounds safety: when the grid is no wider than it is tall (ny <= nx),
      every bin index is below nx, so each accumulator write is in range. */
  lemma NarrowGridInRange(nx: nat, ny: nat)
    requires ny <= nx
    ensures AllBinsInRange(nx, ny)
  {
    forall i: nat, j: nat | i < nx && j < ny
      ensures CellBin(nx, ny, i, j) < nx
    {
      NarrowCellInRange(nx, ny, i, j);
    }
  }

  /** Overflow: once ny >= 2*nx, the cell (0, ny/2) folds to rky = ny/2 >= nx
      and lands in a bin at or past nx, outside the accumulator. */
  lemma WideGridOverflows(nx: nat, ny: nat)
    requires nx >= 1
    requires ny >= 2 * nx
    ensures !AllBinsInRange(nx, ny)
  {
    var j: nat := ny / 2;
    assert Fold(0, nx) == 0;
    assert Fold(j, ny) == j;
    var n := SquaredRadius(nx, ny, 0, j);
    assert n == j * j;
    NatSquareMonotone(nx, j);
    assert (nx - 1) * (nx - 1) + (nx - 1) == nx * nx - nx;
    RoundSqrtAtMost(n, nx - 1);
    assert CellBin(nx, ny, 0, j) >= nx;
  }

  /** The concrete case nx = 4, ny = 16: cell (0, 8) has rky = 8 and bin 8,
      past the last accumulator slot 3. */
  lemma FourBySixteenOverflows()
    ensures CellBin(4, 16, 0, 8) == 8
    ensures !AllBinsInRange(4, 16)
  {
    assert SquaredRadius(4, 16, 0, 8) == 64;
    assert IsNearestRoot(64, 8);
    NearestRootUnique(64, 8);
  }
}
