/** What a neighbour query returns: its order, the cells and sites it
    covers, its two special cases (no shells, a fully periodic lattice),
    and how the union over several sites is made up. */
module NeighbourProperties {
  import opened LatticeShape
  import opened NeighbourSpec
  import opened WindowFacts

  // ---------------------------------------------------------------------------
  // Order: a outermost, c innermost, basis offset fastest

  lemma {:induction false} LineAt(i: int, j: int, kCoords: seq<int>, c: int)
    requires 0 <= c < |kCoords|
    ensures Line(i, j, kCoords)[c] == CellIndex(i, j, kCoords[c])
    decreases |kCoords|
  {
    var init := kCoords[..|kCoords| - 1];
    if c < |init| {
      LineAt(i, j, init, c);
    }
  }

  /** The lines of the first b+1 kept j coordinates start a plane. */
  lemma {:induction false} PlanePrefix(i: int, jCoords: seq<int>, kCoords: seq<int>, b: int)
    requires 0 <= b < |jCoords|
    ensures Plane(i, jCoords[..b], kCoords) + Line(i, jCoords[b], kCoords) <= Plane(i, jCoords, kCoords)
    decreases |jCoords|
  {
    var init := jCoords[..|jCoords| - 1];
    assert Plane(i, jCoords, kCoords) == Plane(i, init, kCoords) + Line(i, jCoords[|jCoords| - 1], kCoords);
    if b < |init| {
      PlanePrefix(i, init, kCoords, b);
      assert init[..b] == jCoords[..b] && init[b] == jCoords[b];
    }
  }

  /** The planes of the first a+1 kept i coordinates start a block. */
  lemma {:induction false} BlockPrefix(iCoords: seq<int>, jCoords: seq<int>, kCoords: seq<int>, a: int)
    requires 0 <= a < |iCoords|
    ensures Block(iCoords[..a], jCoords, kCoords) + Plane(iCoords[a], jCoords, kCoords) <= Block(iCoords, jCoords, kCoords)
    decreases |iCoords|
  {
    var init := iCoords[..|iCoords| - 1];
    assert Block(iCoords, jCoords, kCoords) == Block(init, jCoords, kCoords) + Plane(iCoords[|iCoords| - 1], jCoords, kCoords);
    if a < |init| {
      BlockPrefix(init, jCoords, kCoords, a);
      assert init[..a] == iCoords[..a] && init[a] == iCoords[a];
    }
  }

  /** The sites of the first p+1 cells start the sites of a cell list. */
  lemma {:induction false} SitesOfPrefix(s: Shape, cells: seq<CellIndex>, p: int)
    requires s.Valid() && 0 <= p < |cells|
    ensures SitesOf(s, cells[..p]) + CellSites(s, cells[p]) <= SitesOf(s, cells)
    decreases |cells|
  {
    var init := cells[..|cells| - 1];
    assert SitesOf(s, cells) == SitesOf(s, init) + CellSites(s, cells[|cells| - 1]);
    if p < |init| {
      SitesOfPrefix(s, init, p);
      assert init[..p] == cells[..p] && init[p] == cells[p];
    }
  }

  /** Entry q of a chunk that follows front at the start of whole is entry
      n = |front| + q of whole. */
  lemma ChunkAt<T>(front: seq<T>, chunk: seq<T>, whole: seq<T>, q: int, n: int)
    requires front + chunk <= whole && 0 <= q < |chunk| && n == |front| + q
    ensures 0 <= n < |whole| && whole[n] == chunk[q]
  {
    assert (front + chunk)[n] == chunk[q];
  }

  /** Entry q of the line of jCoords[b] is entry n of the plane, n
      counting the lines before it. */
  lemma PlaneChunk(i: int, jCoords: seq<int>, kCoords: seq<int>, b: int, q: int, n: int)
    requires 0 <= b < |jCoords| && 0 <= q < |Line(i, jCoords[b], kCoords)|
    requires n == |Plane(i, jCoords[..b], kCoords)| + q
    ensures 0 <= n < |Plane(i, jCoords, kCoords)|
    ensures Plane(i, jCoords, kCoords)[n] == Line(i, jCoords[b], kCoords)[q]
  {
    PlanePrefix(i, jCoords, kCoords, b);
    ChunkAt(Plane(i, jCoords[..b], kCoords), Line(i, jCoords[b], kCoords), Plane(i, jCoords, kCoords), q, n);
  }

  /** Entry q of the plane of iCoords[a] is entry n of the block, n
      counting the planes before it. */
  lemma BlockChunk(iCoords: seq<int>, jCoords: seq<int>, kCoords: seq<int>, a: int, q: int, n: int)
    requires 0 <= a < |iCoords| && 0 <= q < |Plane(iCoords[a], jCoords, kCoords)|
    requires n == |Block(iCoords[..a], jCoords, kCoords)| + q
    ensures 0 <= n < |Block(iCoords, jCoords, kCoords)|
    ensures Block(iCoords, jCoords, kCoords)[n] == Plane(iCoords[a], jCoords, kCoords)[q]
  {
    BlockPrefix(iCoords, jCoords, kCoords, a);
    ChunkAt(Block(iCoords[..a], jCoords, kCoords), Plane(iCoords[a], jCoords, kCoords), Block(iCoords, jCoords, kCoords), q, n);
  }

  /** Cell (iCoords[a], jCoords[b], kCoords[c]) of a block is entry n, n
      counting the planes before iCoords[a] and the lines before jCoords[b]. */
  lemma BlockEntry(iCoords: seq<int>, jCoords: seq<int>, kCoords: seq<int>, a: int, b: int, c: int, n: int)
    requires 0 <= a < |iCoords| && 0 <= b < |jCoords| && 0 <= c < |kCoords|
    requires n == |Block(iCoords[..a], jCoords, kCoords)| + (|Plane(iCoords[a], jCoords[..b], kCoords)| + c)
    ensures 0 <= n < |Block(iCoords, jCoords, kCoords)|
    ensures Block(iCoords, jCoords, kCoords)[n] == CellIndex(iCoords[a], jCoords[b], kCoords[c])
  {
    var q := |Plane(iCoords[a], jCoords[..b], kCoords)| + c;
    LineAt(iCoords[a], jCoords[b], kCoords, c);
    PlaneChunk(iCoords[a], jCoords, kCoords, b, c, q);
    BlockChunk(iCoords, jCoords, kCoords, a, q, n);
  }

  /** Cell (iCoords[a], jCoords[b], kCoords[c]) of a block is visited at
      n = a*(|jCoords|*|kCoords|) + b*|kCoords| + c: row-major order over
      the kept coordinates. */
  lemma BlockAt(iCoords: seq<int>, jCoords: seq<int>, kCoords: seq<int>, a: int, b: int, c: int, n: int)
    requires 0 <= a < |iCoords| && 0 <= b < |jCoords| && 0 <= c < |kCoords|
    requires n == a * (|jCoords| * |kCoords|) + (b * |kCoords| + c)
    ensures 0 <= n < |Block(iCoords, jCoords, kCoords)|
    ensures Block(iCoords, jCoords, kCoords)[n] == CellIndex(iCoords[a], jCoords[b], kCoords[c])
  {
    BlockFrontLength(iCoords, jCoords, kCoords, a);
    PlaneFrontLength(iCoords[a], jCoords, kCoords, b);
    BlockEntry(iCoords, jCoords, kCoords, a, b, c, n);
  }

  /** The planes before the a-th hold a*|jCoords|*|kCoords| cells. */
  lemma BlockFrontLength(iCoords: seq<int>, jCoords: seq<int>, kCoords: seq<int>, a: int)
    requires 0 <= a <= |iCoords|
    ensures |Block(iCoords[..a], jCoords, kCoords)| == a * (|jCoords| * |kCoords|)
  {
    BlockLength(iCoords[..a], jCoords, kCoords);
    assert |iCoords[..a]| == a;
  }

  /** The lines before the b-th hold b*|kCoords| cells. */
  lemma PlaneFrontLength(i: int, jCoords: seq<int>, kCoords: seq<int>, b: int)
    requires 0 <= b <= |jCoords|
    ensures |Plane(i, jCoords[..b], kCoords)| == b * |kCoords|
  {
    PlaneLength(i, jCoords[..b], kCoords);
    assert |jCoords[..b]| == b;
  }

  /** Site l of the p-th cell is at p*nBasis + l: each cell contributes its
      sites in increasing order. */
  lemma SitesOfAt(s: Shape, cells: seq<CellIndex>, p: int, l: int)
    requires s.Valid() && 0 <= p < |cells| && 0 <= l < s.nBasis
    ensures p * s.nBasis + l < |SitesOf(s, cells)|
    ensures SitesOf(s, cells)[p * s.nBasis + l] == CellOrdinal(s, cells[p]) * s.nBasis + l
  {
    SitesOfPrefix(s, cells, p);
    SitesOfLength(s, cells[..p]);
    ConsecutiveAt(CellOrdinal(s, cells[p]) * s.nBasis, s.nBasis, l);
    assert |cells[..p]| == p;
    ChunkAt(SitesOf(s, cells[..p]), CellSites(s, cells[p]), SitesOf(s, cells), l, p * s.nBasis + l);
  }

  // ---------------------------------------------------------------------------
  // Coverage: which cells and which sites

  lemma {:induction false} LineMembers(i: int, j: int, kCoords: seq<int>, c: CellIndex)
    ensures c in Line(i, j, kCoords) <==> c.i == i && c.j == j && c.k in kCoords
    decreases |kCoords|
  {
    if kCoords != [] {
      var init, last := kCoords[..|kCoords| - 1], kCoords[|kCoords| - 1];
      LineMembers(i, j, init, c);
      assert kCoords == init + [last];
      assert Line(i, j, kCoords) == Line(i, j, init) + [CellIndex(i, j, last)];
    }
  }

  lemma {:induction false} PlaneMembers(i: int, jCoords: seq<int>, kCoords: seq<int>, c: CellIndex)
    ensures c in Plane(i, jCoords, kCoords) <==> c.i == i && c.j in jCoords && c.k in kCoords
    decreases |jCoords|
  {
    if jCoords != [] {
      var init, last := jCoords[..|jCoords| - 1], jCoords[|jCoords| - 1];
      PlaneMembers(i, init, kCoords, c);
      LineMembers(i, last, kCoords, c);
      assert jCoords == init + [last];
      assert Plane(i, jCoords, kCoords) == Plane(i, init, kCoords) + Line(i, last, kCoords);
    }
  }

  /** A block visits exactly the cells whose three coordinates are kept. */
  lemma {:induction false} BlockMembers(iCoords: seq<int>, jCoords: seq<int>, kCoords: seq<int>, c: CellIndex)
    ensures c in Block(iCoords, jCoords, kCoords) <==> c.i in iCoords && c.j in jCoords && c.k in kCoords
    decreases |iCoords|
  {
    if iCoords != [] {
      var init, last := iCoords[..|iCoords| - 1], iCoords[|iCoords| - 1];
      BlockMembers(init, jCoords, kCoords, c);
      PlaneMembers(last, jCoords, kCoords, c);
      assert iCoords == init + [last];
      assert Block(iCoords, jCoords, kCoords) == Block(init, jCoords, kCoords) + Plane(last, jCoords, kCoords);
    }
  }

  /** The sites of a list of valid cells are exactly the valid indices
      whose cell is in the list. */
  lemma {:induction false} SitesOfMembers(s: Shape, cells: seq<CellIndex>, y: int)
    requires s.Valid()
    requires forall p :: 0 <= p < |cells| ==> ValidCell(s, cells[p])
    ensures y in SitesOf(s, cells) <==> ValidIndex(s, y) && Decompose(s, y) in cells
    decreases |cells|
  {
    if cells != [] {
      var init, last := cells[..|cells| - 1], cells[|cells| - 1];
      SitesOfMembers(s, init, y);
      CellSitesExact(s, last, y);
      assert cells == init + [last];
      assert SitesOf(s, cells) == SitesOf(s, init) + CellSites(s, last);
    }
  }

  /** Every cell a neighbour query visits is inside the lattice. */
  lemma NeighbourCellsValid(s: Shape, x: int, shells: nat)
    requires s.Valid() && ValidIndex(s, x)
    ensures forall p :: 0 <= p < |NeighbourCells(s, x, shells)| ==> ValidCell(s, NeighbourCells(s, x, shells)[p])
  {
    var c := Decompose(s, x);
    var a, b, d := Window(s, 0, c.i, shells), Window(s, 1, c.j, shells), Window(s, 2, c.k, shells);
    KeptInAxis(s, 0, c.i - shells, 2 * shells + 1);
    KeptInAxis(s, 1, c.j - shells, 2 * shells + 1);
    KeptInAxis(s, 2, c.k - shells, 2 * shells + 1);
    forall p | 0 <= p < |NeighbourCells(s, x, shells)|
      ensures ValidCell(s, NeighbourCells(s, x, shells)[p])
    {
      var e := NeighbourCells(s, x, shells)[p];
      BlockMembers(a, b, d, e);
    }
  }

  /** A site is in the neighbour list of x exactly when it is a valid index
      whose cell has all three coordinates in the windows around the cell
      of x. */
  lemma NeighbourSitesExact(s: Shape, x: int, shells: nat, y: int)
    requires s.Valid() && ValidIndex(s, x)
    ensures y in NeighbourSites(s, x, shells) <==>
              ValidIndex(s, y) &&
              Decompose(s, y).i in Window(s, 0, Decompose(s, x).i, shells) &&
              Decompose(s, y).j in Window(s, 1, Decompose(s, x).j, shells) &&
              Decompose(s, y).k in Window(s, 2, Decompose(s, x).k, shells)
  {
    var c := Decompose(s, x);
    NeighbourCellsValid(s, x, shells);
    SitesOfMembers(s, NeighbourCells(s, x, shells), y);
    if ValidIndex(s, y) {
      BlockMembers(Window(s, 0, c.i, shells), Window(s, 1, c.j, shells), Window(s, 2, c.k, shells), Decompose(s, y));
    }
  }

  /** Every entry of a neighbour list is a valid site index. */
  lemma NeighbourSitesValid(s: Shape, x: int, shells: nat)
    requires s.Valid() && ValidIndex(s, x)
    ensures forall p :: 0 <= p < |NeighbourSites(s, x, shells)| ==> ValidIndex(s, NeighbourSites(s, x, shells)[p])
  {
    forall p | 0 <= p < |NeighbourSites(s, x, shells)|
      ensures ValidIndex(s, NeighbourSites(s, x, shells)[p])
    {
      NeighbourSitesExact(s, x, shells, NeighbourSites(s, x, shells)[p]);
    }
  }

  /** The neighbour list of x always holds x itself. */
  lemma ContainsOwnSite(s: Shape, x: int, shells: nat)
    requires s.Valid() && ValidIndex(s, x)
    ensures x in NeighbourSites(s, x, shells)
  {
    var c := Decompose(s, x);
    CentreKept(s, 0, c.i, shells);
    CentreKept(s, 1, c.j, shells);
    CentreKept(s, 2, c.k, shells);
    NeighbourSitesExact(s, x, shells, x);
  }

  // ---------------------------------------------------------------------------
  // Two special cases

  /** With no shells the neighbour list is the sites of the cell of x,
      whatever the periodicity. */
  lemma ShellZero(s: Shape, x: int)
    requires s.Valid() && ValidIndex(s, x)
    ensures NeighbourSites(s, x, 0) == CellSites(s, Decompose(s, x))
  {
    var c := Decompose(s, x);
    WindowZero(s, 0, c.i);
    WindowZero(s, 1, c.j);
    WindowZero(s, 2, c.k);
    SingleCell(c);
    SitesOfSnoc(s, [], c);
    assert [] + [c] == [c];
  }

  /** A block of one kept coordinate per axis is that one cell. */
  lemma SingleCell(c: CellIndex)
    ensures Block([c.i], [c.j], [c.k]) == [c]
  {
    LineSnoc(c.i, c.j, [], c.k);
    PlaneSnoc(c.i, [], c.j, [c.k]);
    BlockSnoc([], c.i, [c.j], [c.k]);
    assert [] + [c.i] == [c.i] && [] + [c.j] == [c.j] && [] + [c.k] == [c.k];
  }

  lemma CubeAssoc(w: int, n: int)
    ensures n * (w * (w * w)) == w * w * w * n
  {
    MulAssoc(w, w, w);
  }

  /** On a lattice periodic along all three axes, with shells at most every
      repetition count, nothing is dropped: the list fills the whole room
      set aside for it, (2*shells+1)^3 * nBasis entries. */
  lemma FullyPeriodicCount(s: Shape, x: int, shells: nat)
    requires s.Valid() && ValidIndex(s, x)
    requires s.periodic[0] && s.periodic[1] && s.periodic[2]
    requires shells <= s.repetitions[0] && shells <= s.repetitions[1] && shells <= s.repetitions[2]
    ensures |NeighbourSites(s, x, shells)| == Capacity(s, shells)
  {
    var c := Decompose(s, x);
    var w := 2 * shells + 1;
    PeriodicWindow(s, 0, c.i, shells);
    PeriodicWindow(s, 1, c.j, shells);
    PeriodicWindow(s, 2, c.k, shells);
    NeighbourSitesBound(s, x, shells);
    BlockLength(Window(s, 0, c.i, shells), Window(s, 1, c.j, shells), Window(s, 2, c.k, shells));
    CubeAssoc(w, s.nBasis);
  }

  /** On a lattice periodic along all three axes and no longer along any
      axis than the window, every site of the lattice is a neighbour. */
  lemma PeriodicCoverage(s: Shape, x: int, shells: nat, y: int)
    requires s.Valid() && ValidIndex(s, x) && ValidIndex(s, y)
    requires s.periodic[0] && s.periodic[1] && s.periodic[2]
    requires shells <= s.repetitions[0] <= 2 * shells + 1
    requires shells <= s.repetitions[1] <= 2 * shells + 1
    requires shells <= s.repetitions[2] <= 2 * shells + 1
    ensures y in NeighbourSites(s, x, shells)
  {
    var c, e := Decompose(s, x), Decompose(s, y);
    PeriodicWindowCovers(s, 0, c.i, shells, e.i);
    PeriodicWindowCovers(s, 1, c.j, shells, e.j);
    PeriodicWindowCovers(s, 2, c.k, shells, e.k);
    NeighbourSitesExact(s, x, shells, y);
  }

  // ---------------------------------------------------------------------------
  // Several sites

  /** A site is in the concatenated lists exactly when it is in the shell-1
      list of one of the sites. */
  lemma {:induction false} ConcatMembers(s: Shape, xs: seq<int>)
    requires s.Valid()
    requires forall p :: 0 <= p < |xs| ==> ValidIndex(s, xs[p])
    ensures forall y :: y in NeighbourConcat(s, xs) <==> exists p :: 0 <= p < |xs| && y in NeighbourSites(s, xs[p], 1)
    decreases |xs|
  {
    if xs != [] {
      var init := xs[..|xs| - 1];
      ConcatMembers(s, init);
      forall y
        ensures y in NeighbourConcat(s, xs) <==> exists p :: 0 <= p < |xs| && y in NeighbourSites(s, xs[p], 1)
      {
        if y in NeighbourConcat(s, init) {
          var p :| 0 <= p < |init| && y in NeighbourSites(s, init[p], 1);
          assert xs[p] == init[p];
        }
        if exists p :: 0 <= p < |xs| && y in NeighbourSites(s, xs[p], 1) {
          var p :| 0 <= p < |xs| && y in NeighbourSites(s, xs[p], 1);
          if p < |xs| - 1 {
            assert init[p] == xs[p];
          }
        }
      }
    }
  }
}
