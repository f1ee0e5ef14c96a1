/** Neighbour queries on two small lattices, worked out in full: clipping
    at the faces of a non-periodic lattice, and repeated cells on a
    periodic lattice narrower than the window. */
module NeighbourExamples {
  import opened LatticeShape
  import opened NeighbourSpec
  import opened WindowFacts
  import opened NeighbourProperties

  /** A 3x3x3 lattice, non-periodic along every axis, one site per cell. */
  function OpenCube(): (s: Shape)
    ensures s.Valid()
  {
    Shape(1, [3, 3, 3], [false, false, false])
  }

  /** A 2x2x2 lattice, periodic along every axis, one site per cell. */
  function PeriodicPair(): (s: Shape)
    ensures s.Valid()
  {
    Shape(1, [2, 2, 2], [true, true, true])
  }

  /** Around the corner cell (0, 0, 0) of the open cube, the window of each
      axis is clipped to the coordinates 0 and 1. */
  lemma CornerWindows(axis: nat)
    requires axis < 3
    ensures Window(OpenCube(), axis, 0, 1) == [0, 1]
  {
    NonPeriodicKept(OpenCube(), axis, -1, 3);
    assert Consecutive(0, 2) == [0, 1];
  }

  /** The cells around the corner cell (0, 0, 0) of the open cube, a axis
      outermost. */
  lemma CornerCells()
    ensures NeighbourCells(OpenCube(), 0, 1) ==
              [CellIndex(0, 0, 0), CellIndex(0, 0, 1), CellIndex(0, 1, 0), CellIndex(0, 1, 1),
               CellIndex(1, 0, 0), CellIndex(1, 0, 1), CellIndex(1, 1, 0), CellIndex(1, 1, 1)]
  {
    assert Decompose(OpenCube(), 0) == CellIndex(0, 0, 0);
    CornerWindows(0);
    CornerWindows(1);
    CornerWindows(2);
    CubeOfTwo([0, 1]);
  }

  /** The block over the coordinates 0 and 1 of every axis. */
  lemma CubeOfTwo(w: seq<int>)
    requires w == [0, 1]
    ensures Block(w, w, w) ==
              [CellIndex(0, 0, 0), CellIndex(0, 0, 1), CellIndex(0, 1, 0), CellIndex(0, 1, 1),
               CellIndex(1, 0, 0), CellIndex(1, 0, 1), CellIndex(1, 1, 0), CellIndex(1, 1, 1)]
  {
    PairLine(0, 0, w);
    PairLine(0, 1, w);
    PairLine(1, 0, w);
    PairLine(1, 1, w);
    assert w == [0] + [1] && [0] == [] + [0];
    PlaneSnoc(0, [0], 1, w);
    PlaneSnoc(0, [], 0, w);
    PlaneSnoc(1, [0], 1, w);
    PlaneSnoc(1, [], 0, w);
    BlockSnoc([0], 1, w, w);
    BlockSnoc([], 0, w, w);
  }

  lemma PairLine(i: int, j: int, w: seq<int>)
    requires w == [0, 1]
    ensures Line(i, j, w) == [CellIndex(i, j, 0), CellIndex(i, j, 1)]
  {
    LineSnoc(i, j, [0], 1);
    LineSnoc(i, j, [], 0);
    assert w == [0] + [1] && [0] == [] + [0];
  }

  /** The corner site 0 of the open cube has 8 neighbours: the sites of
      the cells listed by CornerCells, in that order. */
  lemma CornerClipped()
    ensures NeighbourSites(OpenCube(), 0, 1) == [0, 1, 3, 4, 9, 10, 12, 13]
  {
    CornerCells();
    CornerSites(OpenCube(), NeighbourCells(OpenCube(), 0, 1));
  }

  lemma CornerSites(s: Shape, cells: seq<CellIndex>)
    requires s == OpenCube()
    requires cells ==
               [CellIndex(0, 0, 0), CellIndex(0, 0, 1), CellIndex(0, 1, 0), CellIndex(0, 1, 1),
                CellIndex(1, 0, 0), CellIndex(1, 0, 1), CellIndex(1, 1, 0), CellIndex(1, 1, 1)]
    ensures SitesOf(s, cells) == [0, 1, 3, 4, 9, 10, 12, 13]
  {
    SitesOfLength(s, cells);
    SitesOfAt(s, cells, 0, 0);
    SitesOfAt(s, cells, 1, 0);
    SitesOfAt(s, cells, 2, 0);
    SitesOfAt(s, cells, 3, 0);
    SitesOfAt(s, cells, 4, 0);
    SitesOfAt(s, cells, 5, 0);
    SitesOfAt(s, cells, 6, 0);
    SitesOfAt(s, cells, 7, 0);
  }

  /** The centre site 13, cell (1, 1, 1), of the open cube keeps every one
      of the 27 cells of its window. */
  lemma InteriorFull()
    ensures |NeighbourSites(OpenCube(), 13, 1)| == 27
  {
    var s := OpenCube();
    assert Decompose(s, 13) == CellIndex(1, 1, 1);
    NonPeriodicKept(s, 0, 0, 3);
    NonPeriodicKept(s, 1, 0, 3);
    NonPeriodicKept(s, 2, 0, 3);
    var w := Window(s, 0, 1, 1);
    assert |w| == 3 && Window(s, 1, 1, 1) == w && Window(s, 2, 1, 1) == w;
    NeighbourSitesBound(s, 13, 1);
    BlockLength(w, w, w);
  }

  /** Around coordinate 0 of the periodic pair, each window visits 1
      (wrapped from -1), then 0, then 1 again. */
  lemma PairWindows(axis: nat)
    requires axis < 3
    ensures Window(PeriodicPair(), axis, 0, 1) == [1, 0, 1]
  {
    PeriodicWindow(PeriodicPair(), axis, 0, 1);
  }

  /** Around site 0 of the periodic pair the list has all 27 entries, and
      cell (1, 1, 1), site 7, comes both first and last: the query does
      not remove repeats. */
  lemma PeriodicRepeats()
    ensures |NeighbourSites(PeriodicPair(), 0, 1)| == 27
    ensures NeighbourSites(PeriodicPair(), 0, 1)[0] == 7
    ensures NeighbourSites(PeriodicPair(), 0, 1)[26] == 7
  {
    var s := PeriodicPair();
    assert Decompose(s, 0) == CellIndex(0, 0, 0);
    FullyPeriodicCount(s, 0, 1);
    PairWindows(0);
    PairWindows(1);
    PairWindows(2);
    RepeatedEnds(s, NeighbourCells(s, 0, 1), [1, 0, 1]);
  }

  /** Every site of the periodic pair is a neighbour of site 0. */
  lemma PairCoversAll(y: int)
    requires 0 <= y < 8
    ensures y in NeighbourSites(PeriodicPair(), 0, 1)
  {
    PeriodicCoverage(PeriodicPair(), 0, 1, y);
  }

  lemma RepeatedEnds(s: Shape, cells: seq<CellIndex>, w: seq<int>)
    requires s == PeriodicPair() && w == [1, 0, 1] && cells == Block(w, w, w)
    ensures |SitesOf(s, cells)| == 27
    ensures SitesOf(s, cells)[0] == 7 && SitesOf(s, cells)[26] == 7
  {
    assert |w| == 3;
    BlockLength(w, w, w);
    SitesOfLength(s, cells);
    BlockAt(w, w, w, 0, 0, 0, 0);
    BlockAt(w, w, w, 2, 2, 2, 26);
    SitesOfAt(s, cells, 0, 0);
    SitesOfAt(s, cells, 26, 0);
  }
}
