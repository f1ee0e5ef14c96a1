/** The lattice map object: an immutable configuration and the index
    queries over it, each proved against the pure definitions in
    LatticeShape and NeighbourSpec. */
module LatticeMaps {
  import opened LatticeShape
  import opened NeighbourSpec
  import opened NeighbourLoops
  import opened NeighbourProperties
  import opened Sorting
  import opened SupersetSpec

  class LatticeMap {
    const nBasis: int
    const repetitions: seq<int>
    const periodic: seq<bool>

    function Config(): Shape {
      Shape(nBasis, repetitions, periodic)
    }

    predicate Valid() {
      Config().Valid()
    }

    constructor (nBasis: int, repetitions: seq<int>, periodic: seq<bool>)
      requires Shape(nBasis, repetitions, periodic).Valid()
      ensures Valid() && Config() == Shape(nBasis, repetitions, periodic)
    {
      this.nBasis := nBasis;
      this.repetitions := repetitions;
      this.periodic := periodic;
    }

    /** The cell (i, j, k) of a site, found by three counting scans. */
    method IndexToCell(index: int) returns (cellI: int, cellJ: int, cellK: int)
      requires Valid() && ValidIndex(Config(), index)
      ensures 0 <= cellI < repetitions[0] && 0 <= cellJ < repetitions[1] && 0 <= cellK < repetitions[2]
      ensures (cellI * repetitions[1] + cellJ) * repetitions[2] + cellK == index / nBasis
      ensures CellIndex(cellI, cellJ, cellK) == Decompose(Config(), index)
    {
      // 1-based number of the cell among all cells.
      var idx := index / nBasis + 1;

      cellI := 0;
      var factorI := repetitions[1] * repetitions[2];
      MulMono(1, repetitions[1], repetitions[2]);
      var cmp := factorI;
      while cmp < idx
        invariant cmp == (cellI + 1) * factorI
        invariant cellI * factorI < idx
        decreases idx - cmp
      {
        MulSucc(cellI + 1, factorI);
        cellI := cellI + 1;
        cmp := cmp + factorI;
      }

      cellJ := 0;
      var ci := cellI * factorI;
      var factorJ := repetitions[2];
      var idxJ := idx - ci;
      cmp := factorJ;
      while cmp < idxJ
        invariant cmp == (cellJ + 1) * factorJ
        invariant cellJ * factorJ < idxJ
        decreases idxJ - cmp
      {
        MulSucc(cellJ + 1, factorJ);
        cellJ := cellJ + 1;
        cmp := cmp + factorJ;
      }

      cellK := 1;
      var cij := ci + cellJ * factorJ;
      var idxK := idx - cij;
      while cellK < idxK
        invariant 1 <= cellK && (cellK == 1 || cellK <= idxK)
        decreases idxK - cellK
      {
        cellK := cellK + 1;
      }
      cellK := cellK - 1;
      assert cellI * factorI <= idx - 1 < (cellI + 1) * factorI;
      assert cellJ * factorJ <= idx - 1 - ci < (cellJ + 1) * factorJ;
      assert cellK == idx - 1 - ci - cellJ * factorJ;
      ScansDecompose(Config(), index, cellI, cellJ, cellK);
    }

    /** The sites of cell (i, j, k), as a fresh sequence. */
    method IndicesFromCell(i: int, j: int, k: int) returns (indices: seq<int>)
      requires Valid()
      ensures indices == CellSites(Config(), CellIndex(i, j, k))
    {
      var tmp1 := i * repetitions[1] + j;
      var tmp2 := tmp1 * repetitions[2] + k;
      var tmp3 := tmp2 * nBasis;
      indices := [];
      for l := 0 to nBasis
        invariant indices == Consecutive(tmp3, l)
      {
        indices := indices + [tmp3 + l];
      }
    }
  
    /** The sites of every cell within shells cells of the cell of index,
        a axis outermost, written block by block into a buffer sized for
        the whole (2*shells+1)^3 cube and then cut to the part written. */
    method NeighbourIndices(index: int, shells: nat) returns (neighbours: seq<int>)
      requires Valid() && ValidIndex(Config(), index)
      ensures neighbours == NeighbourSites(Config(), index, shells)
      ensures |neighbours| <= Capacity(Config(), shells)
    {
      var ci, cj, ck := IndexToCell(index);
      var w := 2 * shells + 1;
      var nNeighbours := w * w * w * nBasis;
      CapacityPositive(Config(), shells);
      NeighbourLoopsQuery(Config(), index, CellIndex(ci, cj, ck), shells);
      var store := new int[nNeighbours];
      var counter := AppendBlock(store, ci, cj, ck, shells);
      neighbours := store[..counter];
    }

    /** The i loop of a neighbour query: writes the sites of the kept cells
        (ii, jj, kk) of the window around (ci, cj, ck) from the start of
        store, i outermost. */
    method AppendBlock(store: array<int>, ci: int, cj: int, ck: int, shells: nat) returns (counter: nat)
      requires Valid()
      requires
        |BlockSites(Config(), ci - shells, 2 * shells + 1, cj - shells, 2 * shells + 1, ck - shells, 2 * shells + 1)|
        <= store.Length
      modifies store
      ensures counter <= store.Length
      ensures store[..counter] ==
                BlockSites(Config(), ci - shells, 2 * shells + 1, cj - shells, 2 * shells + 1, ck - shells, 2 * shells + 1)
    {
      ghost var s := Config();
      ghost var lo := ci - shells;
      ghost var w := 2 * shells + 1;
      counter := 0;
      var i := ci - shells;
      while i <= ci + shells
        invariant lo <= i <= ci + shells + 1
        invariant 0 <= counter <= store.Length
        invariant store[..counter] == BlockSites(s, lo, i - lo, cj - shells, w, ck - shells, w)
      {
        var ii := PeriodicCoordinate(0, i);
        // Go on only if i is within bounds.
        if ii >= 0 && ii < repetitions[0] {
          BlockSitesGrow(s, lo, i + 1 - lo, w, cj - shells, w, ck - shells, w);
          counter := AppendPlane(store, counter, ii, cj, ck, shells);
        }
        i := i + 1;
      }
    }

    /** The j loop of a neighbour query: appends the sites of the kept
        cells (i, jj, kk) of the window around (cj, ck), j outer. */
    method AppendPlane(store: array<int>, counter0: nat, i: int, cj: int, ck: int, shells: nat)
      returns (counter: nat)
      requires Valid()
      requires counter0 + |PlaneSites(Config(), i, cj - shells, 2 * shells + 1, ck - shells, 2 * shells + 1)| <= store.Length
      modifies store
      ensures counter0 <= counter <= store.Length
      ensures store[..counter] ==
                old(store[..counter0]) + PlaneSites(Config(), i, cj - shells, 2 * shells + 1, ck - shells, 2 * shells + 1)
    {
      ghost var s := Config();
      ghost var prefix := store[..counter0];
      ghost var lo := cj - shells;
      ghost var w := 2 * shells + 1;
      counter := counter0;
      var j := cj - shells;
      while j <= cj + shells
        invariant lo <= j <= cj + shells + 1
        invariant counter0 <= counter <= store.Length
        invariant store[..counter] == prefix + PlaneSites(s, i, lo, j - lo, ck - shells, w)
      {
        var jj := PeriodicCoordinate(1, j);
        // Go on only if j is within bounds.
        if jj >= 0 && jj < repetitions[1] {
          ghost var before := PlaneSites(s, i, lo, j - lo, ck - shells, w);
          PlaneSitesGrow(s, i, lo, j + 1 - lo, w, ck - shells, w);
          counter := AppendLine(store, counter, i, jj, ck, shells);
          AppendAssoc(prefix, before, LineSites(s, i, jj, ck - shells, w));
        }
        j := j + 1;
      }
    }

    /** The k loop of a neighbour query: appends the sites of the kept
        cells (i, j, kk) of the window around ck. */
    method AppendLine(store: array<int>, counter0: nat, i: int, j: int, ck: int, shells: nat)
      returns (counter: nat)
      requires Valid()
      requires counter0 + |LineSites(Config(), i, j, ck - shells, 2 * shells + 1)| <= store.Length
      modifies store
      ensures counter0 <= counter <= store.Length
      ensures store[..counter] == old(store[..counter0]) + LineSites(Config(), i, j, ck - shells, 2 * shells + 1)
    {
      ghost var s := Config();
      ghost var prefix := store[..counter0];
      ghost var lo := ck - shells;
      counter := counter0;
      var k := ck - shells;
      while k <= ck + shells
        invariant lo <= k <= ck + shells + 1
        invariant counter0 <= counter <= store.Length
        invariant store[..counter] == prefix + LineSites(s, i, j, lo, k - lo)
      {
        var kk := PeriodicCoordinate(2, k);
        // Go on only if k is within bounds.
        if 0 <= kk && kk < repetitions[2] {
          ghost var before := LineSites(s, i, j, lo, k - lo);
          LineSitesGrow(s, i, j, lo, k + 1 - lo, 2 * shells + 1);
          counter := AppendCell(store, counter, i, j, kk);
          AppendAssoc(prefix, before, CellSites(s, CellIndex(i, j, kk)));
        }
        k := k + 1;
      }
    }

    /** The shell-1 neighbours of all the given sites, each listed once,
        in increasing order: the neighbour lists are pushed back one after
        another, then sorted and cut to their distinct entries. */
    method SupersetNeighbourIndices(indices: seq<int>) returns (superset: seq<int>)
      requires Valid()
      requires forall p :: 0 <= p < |indices| ==> ValidIndex(Config(), indices[p])
      ensures StrictlyAscending(superset)
      ensures forall y :: y in superset <==> exists p :: 0 <= p < |indices| && y in NeighbourSites(Config(), indices[p], 1)
      ensures superset == SupersetSites(Config(), indices)
    {
      var all := GatherNeighbours(indices);
      superset := SortUnique(all);
      ConcatMembers(Config(), indices);
      SupersetExact(Config(), indices);
      AscendingDetermined(superset, SupersetSites(Config(), indices));
    }

    /** The shell-1 neighbour lists of the given sites, pushed back one
        after another. */
    method GatherNeighbours(indices: seq<int>) returns (all: seq<int>)
      requires Valid()
      requires forall p :: 0 <= p < |indices| ==> ValidIndex(Config(), indices[p])
      ensures all == NeighbourConcat(Config(), indices)
    {
      ghost var s := Config();
      all := [];
      for p := 0 to |indices|
        invariant all == NeighbourConcat(s, indices[..p])
      {
        var neighbours := NeighbourIndices(indices[p], 1);
        assert indices[..p + 1][..p] == indices[..p];
        assert NeighbourConcat(s, indices[..p + 1]) == all + neighbours;
        all := PushBackAll(all, neighbours);
      }
      assert indices[..|indices|] == indices;
    }

    /** The coordinate v along axis after the single periodic correction:
        shifted by one repetition count when it lies outside the lattice
        along a periodic axis, unchanged otherwise. */
    method PeriodicCoordinate(axis: nat, v: int) returns (w: int)
      requires Valid() && axis < 3
      ensures w == Wrap(Config(), axis, v)
    {
      w := v;
      if periodic[axis] {
        if w < 0 {
          w := w + repetitions[axis];
        } else if w >= repetitions[axis] {
          w := w - repetitions[axis];
        }
      }
    }

    /** Writes the sites of cell (i, j, k) at the write position and moves
        the position past them. */
    method AppendCell(store: array<int>, counter0: nat, i: int, j: int, k: int) returns (counter: nat)
      requires Valid()
      requires counter0 + nBasis <= store.Length
      modifies store
      ensures counter == counter0 + nBasis
      ensures store[..counter] == old(store[..counter0]) + CellSites(Config(), CellIndex(i, j, k))
    {
      var indices := IndicesFromCell(i, j, k);
      CopyBlock(store, counter0, indices);
      counter := counter0 + |indices|;
    }
  }

  /** Appends the entries of items to list one push_back at a time. */
  method PushBackAll(list: seq<int>, items: seq<int>) returns (result: seq<int>)
    ensures result == list + items
  {
    result := list;
    for q := 0 to |items|
      invariant result == list + items[..q]
    {
      assert items[..q + 1] == items[..q] + [items[q]];
      result := result + [items[q]];
    }
    assert items[..|items|] == items;
  }

  /** Copies a block of site indices into dst at offset at, as memcpy does. */
  method CopyBlock(dst: array<int>, at: nat, src: seq<int>)
    requires at + |src| <= dst.Length
    modifies dst
    ensures dst[..at + |src|] == old(dst[..at]) + src
  {
    forall p | 0 <= p < |src| {
      dst[at + p] := src[p];
    }
    assert dst[..at + |src|] == old(dst[..at]) + src by {
      assert forall p :: 0 <= p < at ==> dst[p] == old(dst[p]);
    }
  }
}
