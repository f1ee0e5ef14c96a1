/** The shape of a periodic 3D lattice and the two maps between a flat site
    index and its cell: the forward map (the sites of a cell) and the
    mixed-radix decomposition (the cell of a site).

    A site index linearises (i, j, k, l) row-major over the shape
    [repetitions[0], repetitions[1], repetitions[2], nBasis], with the basis
    offset l varying fastest. */
module LatticeShape {

  /** A cell coordinate: the cell's index along the a, b and c axes. */
  datatype CellIndex = CellIndex(i: int, j: int, k: int)

  /** The immutable configuration of a lattice map. */
  datatype Shape = Shape(nBasis: int, repetitions: seq<int>, periodic: seq<bool>)
  {
    /** The arithmetic needs a positive basis and three positive repetition
        counts (they are divisors); the flags are read per axis. */
    predicate Valid() {
      && nBasis > 0
      && |repetitions| == 3
      && |periodic| == 3
      && repetitions[0] > 0 && repetitions[1] > 0 && repetitions[2] > 0
    }
  }

  // ---------------------------------------------------------------------------
  // Integer helpers

  lemma MulMono(a: int, b: int, d: int)
    requires a <= b && d >= 0
    ensures a * d <= b * d
  {
    assert b * d - a * d == (b - a) * d;
  }

  lemma MulSucc(a: int, d: int)
    ensures (a + 1) * d == a * d + d
  {
  }

  /** Division is determined by the bracket a*d <= q < (a+1)*d. */
  lemma DivUnique(q: int, d: int, a: int)
    requires d > 0 && a * d <= q < (a + 1) * d
    ensures q / d == a && q % d == q - a * d
  {
    var t := q / d;
    assert q == t * d + q % d;
    if t < a {
      MulMono(t + 1, a, d);
    } else if t > a {
      MulMono(a + 1, t, d);
    }
  }

  /** A row-major pair (a, b) over n rows of m entries fits in n*m. */
  lemma RowMajorBound(a: int, b: int, n: int, m: int)
    requires 0 <= a < n && 0 <= b < m
    ensures 0 <= a * m + b < n * m
  {
    MulMono(0, a, m);
    MulMono(a + 1, n, m);
  }

  lemma DivBelow(x: int, d: int, m: int)
    requires d > 0 && 0 <= x < m * d
    ensures 0 <= x / d < m
  {
    var t := x / d;
    assert x == t * d + x % d;
    if t >= m {
      MulMono(m, t, d);
    } else if t < 0 {
      MulMono(t + 1, 0, d);
    }
  }

  // ---------------------------------------------------------------------------
  // Sizes and validity

  function NumCells(s: Shape): (n: int)
    requires s.Valid()
    ensures n > 0
  {
    MulMono(1, s.repetitions[0], s.repetitions[1]);
    MulMono(1, s.repetitions[0] * s.repetitions[1], s.repetitions[2]);
    s.repetitions[0] * s.repetitions[1] * s.repetitions[2]
  }

  function NumSites(s: Shape): int
    requires s.Valid()
  {
    s.nBasis * NumCells(s)
  }

  predicate ValidIndex(s: Shape, x: int)
    requires s.Valid()
  {
    0 <= x < NumSites(s)
  }

  predicate ValidCell(s: Shape, c: CellIndex)
    requires s.Valid()
  {
    && 0 <= c.i < s.repetitions[0]
    && 0 <= c.j < s.repetitions[1]
    && 0 <= c.k < s.repetitions[2]
  }

  /** The row-major number of a cell among all cells, c fastest. */
  function CellOrdinal(s: Shape, c: CellIndex): (n: int)
    requires s.Valid()
    ensures ValidCell(s, c) ==> 0 <= n < NumCells(s)
  {
    var r := s.repetitions;
    OrdinalBound(c.i, c.j, c.k, r[0], r[1], r[2]);
    (c.i * r[1] + c.j) * r[2] + c.k
  }

  lemma OrdinalBound(i: int, j: int, k: int, r0: int, r1: int, r2: int)
    ensures 0 <= i < r0 && 0 <= j < r1 && 0 <= k < r2 ==>
              0 <= (i * r1 + j) * r2 + k < r0 * r1 * r2
  {
    if 0 <= i < r0 && 0 <= j < r1 && 0 <= k < r2 {
      RowMajorBound(i, j, r0, r1);
      RowMajorBound(i * r1 + j, k, r0 * r1, r2);
    }
  }

  // ---------------------------------------------------------------------------
  // The inverse map: direct mixed-radix decomposition

  /** Splitting q over the radices [r0, r1, r2] by division and remainder
      gives a digit triple in range whose row-major number is q. */
  lemma MixedRadixSplit(q: int, r0: int, r1: int, r2: int)
    requires r0 > 0 && r1 > 0 && r2 > 0 && 0 <= q < r0 * r1 * r2
    ensures 0 <= q / (r1 * r2) < r0
    ensures 0 <= (q % (r1 * r2)) / r2 < r1
    ensures ((q / (r1 * r2)) * r1 + (q % (r1 * r2)) / r2) * r2 + (q % (r1 * r2)) % r2 == q
  {
    var plane := r1 * r2;
    MulAssoc(r0, r1, r2);
    DivBelow(q, plane, r0);
    var i, rest := q / plane, q % plane;
    DivBelow(rest, r2, r1);
    var j, k := rest / r2, rest % r2;
    RowMajorNest(i, j, k, r1, r2);
  }

  lemma MulAssoc(a: int, b: int, c: int)
    ensures a * b * c == a * (b * c)
  {
  }

  lemma RowMajorNest(i: int, j: int, k: int, r1: int, r2: int)
    ensures (i * r1 + j) * r2 + k == i * (r1 * r2) + (j * r2 + k)
  {
    MulAssoc(i, r1, r2);
  }

  /** The cell containing site x, by mixed-radix decomposition of x / nBasis. */
  function Decompose(s: Shape, x: int): (c: CellIndex)
    requires s.Valid() && ValidIndex(s, x)
    ensures ValidCell(s, c)
    ensures CellOrdinal(s, c) == x / s.nBasis
  {
    var r := s.repetitions;
    var q := x / s.nBasis;
    DivBelow(x, s.nBasis, NumCells(s));
    MixedRadixSplit(q, r[0], r[1], r[2]);
    var rest := q % (r[1] * r[2]);
    CellIndex(q / (r[1] * r[2]), rest / r[2], rest % r[2])
  }

  /** Row-major numbering over rows of m entries is injective. */
  lemma RowMajorInjective(a: int, b: int, a': int, b': int, m: int)
    requires 0 <= b < m && 0 <= b' < m && a * m + b == a' * m + b'
    ensures a == a' && b == b'
  {
    DivUnique(a * m + b, m, a);
    DivUnique(a' * m + b', m, a');
  }

  /** The digits found by bracketing q between consecutive multiples of the
      plane size and then of the row size are those of the mixed-radix
      decomposition. */
  lemma ScansDecompose(s: Shape, x: int, i: int, j: int, k: int)
    requires s.Valid() && ValidIndex(s, x)
    requires i * (s.repetitions[1] * s.repetitions[2]) <= x / s.nBasis
    requires x / s.nBasis < (i + 1) * (s.repetitions[1] * s.repetitions[2])
    requires j * s.repetitions[2] <= x / s.nBasis - i * (s.repetitions[1] * s.repetitions[2])
    requires x / s.nBasis - i * (s.repetitions[1] * s.repetitions[2]) < (j + 1) * s.repetitions[2]
    requires k == x / s.nBasis - i * (s.repetitions[1] * s.repetitions[2]) - j * s.repetitions[2]
    ensures CellIndex(i, j, k) == Decompose(s, x)
    ensures ValidCell(s, CellIndex(i, j, k))
    ensures CellOrdinal(s, CellIndex(i, j, k)) == x / s.nBasis
  {
    var q, plane, r2 := x / s.nBasis, s.repetitions[1] * s.repetitions[2], s.repetitions[2];
    DivUnique(q, plane, i);
    DivUnique(q - i * plane, r2, j);
  }

  /** Two valid cells with the same row-major number are the same cell. */
  lemma OrdinalInjective(s: Shape, c: CellIndex, d: CellIndex)
    requires s.Valid() && ValidCell(s, c) && ValidCell(s, d)
    requires CellOrdinal(s, c) == CellOrdinal(s, d)
    ensures c == d
  {
    var r1, r2 := s.repetitions[1], s.repetitions[2];
    RowMajorInjective(c.i * r1 + c.j, c.k, d.i * r1 + d.j, d.k, r2);
    RowMajorInjective(c.i, c.j, d.i, d.j, r1);
  }

  // ---------------------------------------------------------------------------
  // The forward map

  /** The n consecutive integers from a, in increasing order. */
  function Consecutive(a: int, n: nat): (r: seq<int>)
    ensures |r| == n
  {
    if n == 0 then [] else Consecutive(a, n - 1) + [a + n - 1]
  }

  lemma {:induction false} ConsecutiveAt(a: int, n: nat, l: int)
    requires 0 <= l < n
    ensures Consecutive(a, n)[l] == a + l
  {
    if l < n - 1 {
      ConsecutiveAt(a, n - 1, l);
    }
  }

  /** The nBasis site indices of cell c, in increasing order. */
  function CellSites(s: Shape, c: CellIndex): seq<int>
    requires s.Valid()
  {
    Consecutive(CellOrdinal(s, c) * s.nBasis, s.nBasis)
  }

  /** The sites of a cell are nBasis consecutive indices, so strictly
      increasing. */
  lemma CellSitesAscending(s: Shape, c: CellIndex)
    requires s.Valid()
    ensures |CellSites(s, c)| == s.nBasis
    ensures forall p, q :: 0 <= p < q < |CellSites(s, c)| ==> CellSites(s, c)[p] < CellSites(s, c)[q]
  {
    var a := CellOrdinal(s, c) * s.nBasis;
    forall p, q | 0 <= p < q < s.nBasis
      ensures CellSites(s, c)[p] < CellSites(s, c)[q]
    {
      ConsecutiveAt(a, s.nBasis, p);
      ConsecutiveAt(a, s.nBasis, q);
    }
  }

  /** Every site of a valid cell is a valid site index. */
  lemma CellSitesValid(s: Shape, c: CellIndex)
    requires s.Valid() && ValidCell(s, c)
    ensures forall l :: 0 <= l < |CellSites(s, c)| ==> ValidIndex(s, CellSites(s, c)[l])
  {
    forall l | 0 <= l < s.nBasis
      ensures ValidIndex(s, CellSites(s, c)[l])
    {
      ConsecutiveAt(CellOrdinal(s, c) * s.nBasis, s.nBasis, l);
      RowMajorBound(CellOrdinal(s, c), l, NumCells(s), s.nBasis);
    }
  }

  /** Forward then inverse: the l-th site of a valid cell lies in that cell. */
  lemma DecomposeCellSite(s: Shape, c: CellIndex, l: int)
    requires s.Valid() && ValidCell(s, c) && 0 <= l < s.nBasis
    ensures ValidIndex(s, CellOrdinal(s, c) * s.nBasis + l)
    ensures Decompose(s, CellOrdinal(s, c) * s.nBasis + l) == c
  {
    var n := CellOrdinal(s, c);
    var y := n * s.nBasis + l;
    RowMajorBound(n, l, NumCells(s), s.nBasis);
    DivUnique(y, s.nBasis, n);
    OrdinalInjective(s, Decompose(s, y), c);
  }

  /** Inverse then forward: the sites of the cell of x hold x at
      position x % nBasis. */
  lemma RoundTrip(s: Shape, x: int)
    requires s.Valid() && ValidIndex(s, x)
    ensures x % s.nBasis < |CellSites(s, Decompose(s, x))|
    ensures CellSites(s, Decompose(s, x))[x % s.nBasis] == x
  {
    assert x == (x / s.nBasis) * s.nBasis + x % s.nBasis;
    ConsecutiveAt(CellOrdinal(s, Decompose(s, x)) * s.nBasis, s.nBasis, x % s.nBasis);
  }

  /** The sites of a valid cell are exactly the valid indices whose
      decomposition is that cell. */
  lemma CellSitesExact(s: Shape, c: CellIndex, y: int)
    requires s.Valid() && ValidCell(s, c)
    ensures y in CellSites(s, c) <==> ValidIndex(s, y) && Decompose(s, y) == c
  {
    if y in CellSites(s, c) {
      var l :| 0 <= l < s.nBasis && CellSites(s, c)[l] == y;
      ConsecutiveAt(CellOrdinal(s, c) * s.nBasis, s.nBasis, l);
      DecomposeCellSite(s, c, l);
    }
    if ValidIndex(s, y) && Decompose(s, y) == c {
      RoundTrip(s, y);
    }
  }
}
