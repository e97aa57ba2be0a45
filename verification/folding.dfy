/** Frequency folding: the index of a discrete Fourier transform output along
    one axis of length n is mapped to the signed frequency it stands for.
    Indices above the Nyquist index n/2 denote negative frequencies. */
module Folding {

  /** True when r is a signed frequency in the half-open window (-n/2, n/2],
      written without division so that odd n is exact. */
  predicate InFoldWindow(r: int, n: nat)
  {
    -(n as int) < 2 * r <= n
  }

  /** The signed frequency of index i on an axis of length n: the index itself,
      or the index minus n once it lies past n/2 (the test is `i > n/2` with
      true division, i.e. 2*i > n). */
  function Fold(i: nat, n: nat): (r: int)
    requires i < n
    ensures InFoldWindow(r, n)
    ensures (r - i) % n == 0
    ensures r == i || r == i - n
    ensures r == 0 <==> i == 0
  {
    if 2 * i > n then i - n else i
  }

  /** The fold is the ONLY integer in the window (-n/2, n/2] congruent to i
      modulo n: it is the canonical signed representative of i. */
  lemma FoldUnique(i: nat, n: nat, r: int)
    requires i < n
    requires InFoldWindow(r, n)
    requires (r - i) % n == 0
    ensures r == Fold(i, n)
  {
    var q := (r - i) / n;
    assert r - i == n * q;
    assert q == 0 || q == -1;
    if q == 0 {
      assert r == i;
    } else {
      assert r == i - n;
    }
  }
}
