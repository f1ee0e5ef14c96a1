/** What a neighbour query returns, as pure functions over a Shape.

    Along each axis the raw coordinates centre-shells .. centre+shells are
    visited in ascending order; a periodic axis corrects a raw value once,
    by adding or subtracting one period; a value still out of range is
    dropped, on either kind of axis. The surviving cells are visited with
    the a axis outermost and the c axis innermost, and each contributes its
    nBasis sites in increasing order. */
module NeighbourSpec {
  import opened LatticeShape

  /** The single periodic correction applied to a raw coordinate. */
  function Wrap(s: Shape, axis: nat, v: int): int
    requires s.Valid() && axis < 3
  {
    if !s.periodic[axis] then v
    else if v < 0 then v + s.repetitions[axis]
    else if v >= s.repetitions[axis] then v - s.repetitions[axis]
    else v
  }

  predicate InAxis(s: Shape, axis: nat, v: int)
    requires s.Valid() && axis < 3
  {
    0 <= v < s.repetitions[axis]
  }

  /** The coordinates kept along an axis for the first n raw values
      lo, lo+1, ..., in the order they are visited. */
  function Kept(s: Shape, axis: nat, lo: int, n: nat): (r: seq<int>)
    requires s.Valid() && axis < 3
    ensures |r| <= n
  {
    if n == 0 then []
    else
      var w := Wrap(s, axis, lo + n - 1);
      Kept(s, axis, lo, n - 1) + (if InAxis(s, axis, w) then [w] else [])
  }

  /** The kept coordinates of the window of half-width shells around centre. */
  function Window(s: Shape, axis: nat, centre: int, shells: nat): seq<int>
    requires s.Valid() && axis < 3
  {
    Kept(s, axis, centre - shells, 2 * shells + 1)
  }

  // ---------------------------------------------------------------------------
  // Visiting order of cells: a outermost, then b, then c

  function Line(i: int, j: int, kCoords: seq<int>): (r: seq<CellIndex>)
    ensures |r| == |kCoords|
  {
    if kCoords == [] then []
    else Line(i, j, kCoords[..|kCoords| - 1]) + [CellIndex(i, j, kCoords[|kCoords| - 1])]
  }

  function Plane(i: int, jCoords: seq<int>, kCoords: seq<int>): seq<CellIndex>
  {
    if jCoords == [] then []
    else Plane(i, jCoords[..|jCoords| - 1], kCoords) + Line(i, jCoords[|jCoords| - 1], kCoords)
  }

  function Block(iCoords: seq<int>, jCoords: seq<int>, kCoords: seq<int>): seq<CellIndex>
  {
    if iCoords == [] then []
    else Block(iCoords[..|iCoords| - 1], jCoords, kCoords) + Plane(iCoords[|iCoords| - 1], jCoords, kCoords)
  }

  /** The sites of a list of cells, cell after cell. */
  function SitesOf(s: Shape, cells: seq<CellIndex>): seq<int>
    requires s.Valid()
  {
    if cells == [] then []
    else SitesOf(s, cells[..|cells| - 1]) + CellSites(s, cells[|cells| - 1])
  }

  /** The cells a neighbour query around site x visits, in visiting order. */
  function NeighbourCells(s: Shape, x: int, shells: nat): seq<CellIndex>
    requires s.Valid() && ValidIndex(s, x)
  {
    var c := Decompose(s, x);
    Block(Window(s, 0, c.i, shells), Window(s, 1, c.j, shells), Window(s, 2, c.k, shells))
  }

  /** The site indices a neighbour query around site x returns. */
  function NeighbourSites(s: Shape, x: int, shells: nat): seq<int>
    requires s.Valid() && ValidIndex(s, x)
  {
    SitesOf(s, NeighbourCells(s, x, shells))
  }

  /** The room set aside for a neighbour list: (2*shells+1)^3 cells. */
  function Capacity(s: Shape, shells: nat): int
    requires s.Valid()
  {
    (2 * shells + 1) * (2 * shells + 1) * (2 * shells + 1) * s.nBasis
  }

  /** The concatenated shell-1 neighbour lists of several sites. */
  function NeighbourConcat(s: Shape, xs: seq<int>): seq<int>
    requires s.Valid()
    requires forall p :: 0 <= p < |xs| ==> ValidIndex(s, xs[p])
  {
    if xs == [] then []
    else NeighbourConcat(s, xs[..|xs| - 1]) + NeighbourSites(s, xs[|xs| - 1], 1)
  }

  // ---------------------------------------------------------------------------
  // One more element of each visiting order

  lemma KeptSnoc(s: Shape, axis: nat, lo: int, n: nat)
    requires s.Valid() && axis < 3
    ensures Kept(s, axis, lo, n + 1) ==
              Kept(s, axis, lo, n) + (if InAxis(s, axis, Wrap(s, axis, lo + n)) then [Wrap(s, axis, lo + n)] else [])
  {
  }

  lemma LineSnoc(i: int, j: int, kCoords: seq<int>, k: int)
    ensures Line(i, j, kCoords + [k]) == Line(i, j, kCoords) + [CellIndex(i, j, k)]
  {
    assert (kCoords + [k])[..|kCoords|] == kCoords;
  }

  lemma PlaneSnoc(i: int, jCoords: seq<int>, j: int, kCoords: seq<int>)
    ensures Plane(i, jCoords + [j], kCoords) == Plane(i, jCoords, kCoords) + Line(i, j, kCoords)
  {
    assert (jCoords + [j])[..|jCoords|] == jCoords;
  }

  lemma BlockSnoc(iCoords: seq<int>, i: int, jCoords: seq<int>, kCoords: seq<int>)
    ensures Block(iCoords + [i], jCoords, kCoords) == Block(iCoords, jCoords, kCoords) + Plane(i, jCoords, kCoords)
  {
    assert (iCoords + [i])[..|iCoords|] == iCoords;
  }

  lemma SitesOfSnoc(s: Shape, cells: seq<CellIndex>, c: CellIndex)
    requires s.Valid()
    ensures SitesOf(s, cells + [c]) == SitesOf(s, cells) + CellSites(s, c)
  {
    assert (cells + [c])[..|cells|] == cells;
  }

  lemma {:induction false} SitesOfAppend(s: Shape, xs: seq<CellIndex>, ys: seq<CellIndex>)
    requires s.Valid()
    ensures SitesOf(s, xs + ys) == SitesOf(s, xs) + SitesOf(s, ys)
    decreases |ys|
  {
    if ys == [] {
      assert xs + ys == xs;
    } else {
      var init, last := ys[..|ys| - 1], ys[|ys| - 1];
      assert xs + ys == (xs + init) + [last];
      assert ys == init + [last];
      SitesOfAppend(s, xs, init);
      SitesOfSnoc(s, xs + init, last);
      SitesOfSnoc(s, init, last);
    }
  }

  lemma CapacityPositive(s: Shape, shells: nat)
    requires s.Valid()
    ensures Capacity(s, shells) > 0
  {
    var w := 2 * shells + 1;
    MulMono(1, w, w);
    MulMono(1, w * w, w);
    MulMono(1, w * w * w, s.nBasis);
  }

  // ---------------------------------------------------------------------------
  // Lengths

  lemma {:induction false} SitesOfLength(s: Shape, cells: seq<CellIndex>)
    requires s.Valid()
    ensures |SitesOf(s, cells)| == s.nBasis * |cells|
    decreases |cells|
  {
    if cells != [] {
      SitesOfLength(s, cells[..|cells| - 1]);
      MulSucc(|cells| - 1, s.nBasis);
    }
  }

  lemma {:induction false} PlaneLength(i: int, jCoords: seq<int>, kCoords: seq<int>)
    ensures |Plane(i, jCoords, kCoords)| == |jCoords| * |kCoords|
    decreases |jCoords|
  {
    if jCoords != [] {
      PlaneLength(i, jCoords[..|jCoords| - 1], kCoords);
      MulSucc(|jCoords| - 1, |kCoords|);
    }
  }

  lemma {:induction false} BlockLength(iCoords: seq<int>, jCoords: seq<int>, kCoords: seq<int>)
    ensures |Block(iCoords, jCoords, kCoords)| == |iCoords| * (|jCoords| * |kCoords|)
    decreases |iCoords|
  {
    if iCoords != [] {
      BlockLength(iCoords[..|iCoords| - 1], jCoords, kCoords);
      PlaneLength(iCoords[|iCoords| - 1], jCoords, kCoords);
      MulSucc(|iCoords| - 1, |jCoords| * |kCoords|);
    }
  }

  /** At most w*w*w blocks of n sites fit in w*w*w*n. */
  lemma CubeBound(a: int, b: int, c: int, w: int, n: int)
    requires 0 <= a <= w && 0 <= b <= w && 0 <= c <= w && n >= 0
    ensures n * (a * (b * c)) <= w * w * w * n
  {
    MulMono(b, w, c);
    MulMono(c, w, w);
    MulMono(0, b, c);
    MulMono(a, w, b * c);
    MulMono(b * c, w * w, w);
    MulMono(a * (b * c), w * w * w, n);
    assert w * (b * c) <= w * (w * w);
  }

  /** A neighbour query returns whole cells, at most (2*shells+1)^3 of
      them. */
  lemma NeighbourSitesBound(s: Shape, x: int, shells: nat)
    requires s.Valid() && ValidIndex(s, x)
    ensures |NeighbourSites(s, x, shells)| == s.nBasis * |NeighbourCells(s, x, shells)|
    ensures |NeighbourSites(s, x, shells)| <= Capacity(s, shells)
  {
    var c := Decompose(s, x);
    var a, b, d := Window(s, 0, c.i, shells), Window(s, 1, c.j, shells), Window(s, 2, c.k, shells);
    SitesOfLength(s, NeighbourCells(s, x, shells));
    BlockLength(a, b, d);
    CubeBound(|a|, |b|, |d|, 2 * shells + 1, s.nBasis);
  }
}
