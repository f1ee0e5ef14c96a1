/** The neighbour query as its three nested loops produce it: each function
    below is what one loop has written after its first n raw coordinates,
    and each is shown equal to the sites of the kept cells in NeighbourSpec. */
module NeighbourLoops {
  import opened LatticeShape
  import opened NeighbourSpec

  /** The sites the k loop writes for the raw coordinates lo, ..., lo+n-1
      of cell row (i, j). */
  function LineSites(s: Shape, i: int, j: int, lo: int, n: nat): seq<int>
    requires s.Valid()
  {
    if n == 0 then []
    else
      var k := Wrap(s, 2, lo + n - 1);
      LineSites(s, i, j, lo, n - 1) + (if InAxis(s, 2, k) then CellSites(s, CellIndex(i, j, k)) else [])
  }

  /** The sites the j loop writes for the raw coordinates loJ, ...,
      loJ+nJ-1 of cell plane i, each with a full k loop. */
  function PlaneSites(s: Shape, i: int, loJ: int, nJ: nat, loK: int, nK: nat): seq<int>
    requires s.Valid()
  {
    if nJ == 0 then []
    else
      var j := Wrap(s, 1, loJ + nJ - 1);
      PlaneSites(s, i, loJ, nJ - 1, loK, nK) + (if InAxis(s, 1, j) then LineSites(s, i, j, loK, nK) else [])
  }

  /** The sites the i loop writes for the raw coordinates loI, ...,
      loI+nI-1, each with a full j loop. */
  function BlockSites(s: Shape, loI: int, nI: nat, loJ: int, nJ: nat, loK: int, nK: nat): seq<int>
    requires s.Valid()
  {
    if nI == 0 then []
    else
      var i := Wrap(s, 0, loI + nI - 1);
      BlockSites(s, loI, nI - 1, loJ, nJ, loK, nK) + (if InAxis(s, 0, i) then PlaneSites(s, i, loJ, nJ, loK, nK) else [])
  }

  // ---------------------------------------------------------------------------
  // What the loops write is the sites of the kept cells

  lemma {:induction false} LineSitesMeaning(s: Shape, i: int, j: int, lo: int, n: nat)
    requires s.Valid()
    ensures LineSites(s, i, j, lo, n) == SitesOf(s, Line(i, j, Kept(s, 2, lo, n)))
  {
    if n > 0 {
      LineSitesMeaning(s, i, j, lo, n - 1);
      var kCoords := Kept(s, 2, lo, n - 1);
      var k := Wrap(s, 2, lo + n - 1);
      KeptSnoc(s, 2, lo, n - 1);
      if InAxis(s, 2, k) {
        assert Kept(s, 2, lo, n) == kCoords + [k];
        LineSnoc(i, j, kCoords, k);
        SitesOfSnoc(s, Line(i, j, kCoords), CellIndex(i, j, k));
        calc {
          LineSites(s, i, j, lo, n);
          LineSites(s, i, j, lo, n - 1) + CellSites(s, CellIndex(i, j, k));
          SitesOf(s, Line(i, j, kCoords)) + CellSites(s, CellIndex(i, j, k));
          SitesOf(s, Line(i, j, kCoords + [k]));
          SitesOf(s, Line(i, j, Kept(s, 2, lo, n)));
        }
      } else {
        assert Kept(s, 2, lo, n) == kCoords;
        assert LineSites(s, i, j, lo, n) == LineSites(s, i, j, lo, n - 1);
      }
    }
  }

  lemma {:induction false} PlaneSitesMeaning(s: Shape, i: int, loJ: int, nJ: nat, loK: int, nK: nat)
    requires s.Valid()
    ensures PlaneSites(s, i, loJ, nJ, loK, nK) == SitesOf(s, Plane(i, Kept(s, 1, loJ, nJ), Kept(s, 2, loK, nK)))
  {
    if nJ > 0 {
      PlaneSitesMeaning(s, i, loJ, nJ - 1, loK, nK);
      var jCoords, kCoords := Kept(s, 1, loJ, nJ - 1), Kept(s, 2, loK, nK);
      var j := Wrap(s, 1, loJ + nJ - 1);
      KeptSnoc(s, 1, loJ, nJ - 1);
      if InAxis(s, 1, j) {
        assert Kept(s, 1, loJ, nJ) == jCoords + [j];
        PlaneSnoc(i, jCoords, j, kCoords);
        SitesOfAppend(s, Plane(i, jCoords, kCoords), Line(i, j, kCoords));
        LineSitesMeaning(s, i, j, loK, nK);
        calc {
          PlaneSites(s, i, loJ, nJ, loK, nK);
          PlaneSites(s, i, loJ, nJ - 1, loK, nK) + LineSites(s, i, j, loK, nK);
          SitesOf(s, Plane(i, jCoords, kCoords)) + SitesOf(s, Line(i, j, kCoords));
          SitesOf(s, Plane(i, jCoords + [j], kCoords));
          SitesOf(s, Plane(i, Kept(s, 1, loJ, nJ), kCoords));
        }
      } else {
        assert Kept(s, 1, loJ, nJ) == jCoords;
        assert PlaneSites(s, i, loJ, nJ, loK, nK) == PlaneSites(s, i, loJ, nJ - 1, loK, nK);
      }
    }
  }

  predicate BlockMeans(s: Shape, loI: int, nI: nat, loJ: int, nJ: nat, loK: int, nK: nat)
    requires s.Valid()
  {
    BlockSites(s, loI, nI, loJ, nJ, loK, nK) ==
      SitesOf(s, Block(Kept(s, 0, loI, nI), Kept(s, 1, loJ, nJ), Kept(s, 2, loK, nK)))
  }

  lemma {:induction false} BlockSitesMeaning(s: Shape, loI: int, nI: nat, loJ: int, nJ: nat, loK: int, nK: nat)
    requires s.Valid()
    ensures BlockMeans(s, loI, nI, loJ, nJ, loK, nK)
  {
    if nI == 0 {
      assert Kept(s, 0, loI, nI) == [];
    } else {
      BlockSitesMeaning(s, loI, nI - 1, loJ, nJ, loK, nK);
      BlockSitesStep(s, loI, nI, loJ, nJ, loK, nK);
    }
  }

  lemma BlockSitesStep(s: Shape, loI: int, nI: nat, loJ: int, nJ: nat, loK: int, nK: nat)
    requires s.Valid() && nI > 0
    requires BlockMeans(s, loI, nI - 1, loJ, nJ, loK, nK)
    ensures BlockMeans(s, loI, nI, loJ, nJ, loK, nK)
  {
    var iCoords, jCoords, kCoords := Kept(s, 0, loI, nI - 1), Kept(s, 1, loJ, nJ), Kept(s, 2, loK, nK);
    var i := Wrap(s, 0, loI + nI - 1);
    KeptSnoc(s, 0, loI, nI - 1);
    if InAxis(s, 0, i) {
      assert Kept(s, 0, loI, nI) == iCoords + [i];
      BlockSnoc(iCoords, i, jCoords, kCoords);
      SitesOfAppend(s, Block(iCoords, jCoords, kCoords), Plane(i, jCoords, kCoords));
      PlaneSitesMeaning(s, i, loJ, nJ, loK, nK);
      calc {
        BlockSites(s, loI, nI, loJ, nJ, loK, nK);
        BlockSites(s, loI, nI - 1, loJ, nJ, loK, nK) + PlaneSites(s, i, loJ, nJ, loK, nK);
        SitesOf(s, Block(iCoords, jCoords, kCoords)) + SitesOf(s, Plane(i, jCoords, kCoords));
        SitesOf(s, Block(iCoords + [i], jCoords, kCoords));
      }
    } else {
      assert Kept(s, 0, loI, nI) == iCoords;
      assert BlockSites(s, loI, nI, loJ, nJ, loK, nK) == BlockSites(s, loI, nI - 1, loJ, nJ, loK, nK);
    }
  }

  /** The three full loops around cell c write the sites of the cells in
      the windows around c. */
  lemma NeighbourLoopsMeaning(s: Shape, c: CellIndex, shells: nat)
    requires s.Valid()
    ensures BlockSites(s, c.i - shells, 2 * shells + 1, c.j - shells, 2 * shells + 1, c.k - shells, 2 * shells + 1) ==
              SitesOf(s, Block(Window(s, 0, c.i, shells), Window(s, 1, c.j, shells), Window(s, 2, c.k, shells)))
  {
    BlockSitesMeaning(s, c.i - shells, 2 * shells + 1, c.j - shells, 2 * shells + 1, c.k - shells, 2 * shells + 1);
  }

  /** Around the cell of x, the three full loops write the neighbour list
      of x, which fits in the room set aside for it. */
  lemma NeighbourLoopsQuery(s: Shape, x: int, c: CellIndex, shells: nat)
    requires s.Valid() && ValidIndex(s, x) && c == Decompose(s, x)
    ensures BlockSites(s, c.i - shells, 2 * shells + 1, c.j - shells, 2 * shells + 1, c.k - shells, 2 * shells + 1) ==
              NeighbourSites(s, x, shells)
    ensures |NeighbourSites(s, x, shells)| <= Capacity(s, shells)
  {
    NeighbourLoopsMeaning(s, c, shells);
    NeighbourSitesBound(s, x, shells);
  }

  // ---------------------------------------------------------------------------
  // Each loop only extends what it has written

  lemma {:induction false} LineSitesGrow(s: Shape, i: int, j: int, lo: int, n: nat, m: nat)
    requires s.Valid() && n <= m
    ensures LineSites(s, i, j, lo, n) <= LineSites(s, i, j, lo, m)
    decreases m - n
  {
    if n < m {
      LineSitesGrow(s, i, j, lo, n, m - 1);
    }
  }

  lemma {:induction false} PlaneSitesGrow(s: Shape, i: int, loJ: int, n: nat, m: nat, loK: int, nK: nat)
    requires s.Valid() && n <= m
    ensures PlaneSites(s, i, loJ, n, loK, nK) <= PlaneSites(s, i, loJ, m, loK, nK)
    decreases m - n
  {
    if n < m {
      PlaneSitesGrow(s, i, loJ, n, m - 1, loK, nK);
    }
  }

  lemma {:induction false} BlockSitesGrow(s: Shape, loI: int, n: nat, m: nat, loJ: int, nJ: nat, loK: int, nK: nat)
    requires s.Valid() && n <= m
    ensures BlockSites(s, loI, n, loJ, nJ, loK, nK) <= BlockSites(s, loI, m, loJ, nJ, loK, nK)
    decreases m - n
  {
    if n < m {
      BlockSitesGrow(s, loI, n, m - 1, loJ, nJ, loK, nK);
    }
  }

  /** Regrouping an append, stated apart so that the loop methods need not
      prove sequence extensionality inside their own larger contexts. */
  lemma AppendAssoc(a: seq<int>, b: seq<int>, c: seq<int>)
    ensures (a + b) + c == a + (b + c)
  {
  }
}
