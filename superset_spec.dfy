/** What a superset query returns, as a pure function: the distinct
    entries of the shell-1 neighbour lists of several sites, in increasing
    order, found by scanning every site index of the lattice. */
module SupersetSpec {
  import opened LatticeShape
  import opened NeighbourSpec
  import opened NeighbourProperties
  import opened Sorting

  /** The members of v among lo, lo+1, ..., lo+n-1, in increasing order. */
  function MembersIn(v: seq<int>, lo: int, n: nat): seq<int>
  {
    if n == 0 then []
    else MembersIn(v, lo, n - 1) + (if lo + n - 1 in v then [lo + n - 1] else [])
  }

  /** MembersIn lists each member of v within the range once, in
      increasing order, and nothing else. */
  lemma {:induction false} MembersInExact(v: seq<int>, lo: int, n: nat)
    ensures StrictlyAscending(MembersIn(v, lo, n))
    ensures forall y :: y in MembersIn(v, lo, n) <==> y in v && lo <= y < lo + n
  {
    if n > 0 {
      MembersInExact(v, lo, n - 1);
      var init := MembersIn(v, lo, n - 1);
      if lo + n - 1 in v {
        assert MembersIn(v, lo, n) == init + [lo + n - 1];
        forall p | 0 <= p < |init|
          ensures init[p] < lo + n - 1
        {
          assert init[p] in init;
        }
      } else {
        assert MembersIn(v, lo, n) == init;
      }
    }
  }

  /** The number of site indices of a lattice, as a count. */
  function SiteCount(s: Shape): (n: nat)
    requires s.Valid()
    ensures n == NumSites(s)
  {
    MulMono(1, s.nBasis, NumCells(s));
    NumSites(s)
  }

  /** The superset of the sites xs: every valid site index that is in the
      shell-1 neighbour list of one of them, in increasing order. */
  function SupersetSites(s: Shape, xs: seq<int>): seq<int>
    requires s.Valid()
    requires forall p :: 0 <= p < |xs| ==> ValidIndex(s, xs[p])
  {
    MembersIn(NeighbourConcat(s, xs), 0, SiteCount(s))
  }

  /** Scanning a range that holds every entry of v lists exactly the
      entries of v. */
  lemma MembersInAll(v: seq<int>, n: nat)
    requires forall p :: 0 <= p < |v| ==> 0 <= v[p] < n
    ensures StrictlyAscending(MembersIn(v, 0, n))
    ensures forall y :: y in MembersIn(v, 0, n) <==> y in v
  {
    MembersInExact(v, 0, n);
  }

  /** Every entry of the concatenated lists is a valid site index. */
  lemma {:induction false} ConcatValid(s: Shape, xs: seq<int>)
    requires s.Valid()
    requires forall p :: 0 <= p < |xs| ==> ValidIndex(s, xs[p])
    ensures forall q :: 0 <= q < |NeighbourConcat(s, xs)| ==> ValidIndex(s, NeighbourConcat(s, xs)[q])
    decreases |xs|
  {
    if xs != [] {
      ConcatValid(s, xs[..|xs| - 1]);
      NeighbourSitesValid(s, xs[|xs| - 1], 1);
    }
  }

  /** The superset is strictly ascending and its entries are exactly those
      of the shell-1 neighbour lists of the given sites. */
  lemma SupersetExact(s: Shape, xs: seq<int>)
    requires s.Valid()
    requires forall p :: 0 <= p < |xs| ==> ValidIndex(s, xs[p])
    ensures StrictlyAscending(SupersetSites(s, xs))
    ensures forall y :: y in SupersetSites(s, xs) <==> exists p :: 0 <= p < |xs| && y in NeighbourSites(s, xs[p], 1)
  {
    var v := NeighbourConcat(s, xs);
    ConcatValid(s, xs);
    MembersInAll(v, SiteCount(s));
    ConcatMembers(s, xs);
  }

  /** The superset depends only on which sites are given: not on their
      order, nor on repeats among them. */
  lemma SupersetOrderFree(s: Shape, xs: seq<int>, ys: seq<int>)
    requires s.Valid()
    requires forall p :: 0 <= p < |xs| ==> ValidIndex(s, xs[p])
    requires forall p :: 0 <= p < |ys| ==> ValidIndex(s, ys[p])
    requires forall x :: x in xs <==> x in ys
    ensures SupersetSites(s, xs) == SupersetSites(s, ys)
  {
    ConcatSameMembers(s, xs, ys);
    MembersInSame(NeighbourConcat(s, xs), NeighbourConcat(s, ys), 0, SiteCount(s));
  }

  /** Lists of sites with the same members have concatenated neighbour
      lists with the same members. */
  lemma ConcatSameMembers(s: Shape, xs: seq<int>, ys: seq<int>)
    requires s.Valid()
    requires forall p :: 0 <= p < |xs| ==> ValidIndex(s, xs[p])
    requires forall p :: 0 <= p < |ys| ==> ValidIndex(s, ys[p])
    requires forall x :: x in xs <==> x in ys
    ensures forall y :: y in NeighbourConcat(s, xs) <==> y in NeighbourConcat(s, ys)
  {
    ConcatMembers(s, xs);
    ConcatMembers(s, ys);
    forall y | y in NeighbourConcat(s, xs)
      ensures y in NeighbourConcat(s, ys)
    {
      var p :| 0 <= p < |xs| && y in NeighbourSites(s, xs[p], 1);
      assert xs[p] in ys;
      var q :| 0 <= q < |ys| && ys[q] == xs[p];
    }
    forall y | y in NeighbourConcat(s, ys)
      ensures y in NeighbourConcat(s, xs)
    {
      var q :| 0 <= q < |ys| && y in NeighbourSites(s, ys[q], 1);
      assert ys[q] in xs;
      var p :| 0 <= p < |xs| && xs[p] == ys[q];
    }
  }

  /** MembersIn depends only on the members of v. */
  lemma {:induction false} MembersInSame(v: seq<int>, w: seq<int>, lo: int, n: nat)
    requires forall y :: y in v <==> y in w
    ensures MembersIn(v, lo, n) == MembersIn(w, lo, n)
  {
    if n > 0 {
      MembersInSame(v, w, lo, n - 1);
    }
  }

  /** No sites, no superset. */
  lemma SupersetOfNone(s: Shape)
    requires s.Valid()
    ensures SupersetSites(s, []) == []
  {
    SupersetExact(s, []);
    if SupersetSites(s, []) != [] {
      HeadMember(SupersetSites(s, []));
      assert false;
    }
  }

  /** The superset of one site is its shell-1 neighbour list sorted, with
      the repeats removed. */
  lemma SupersetOfOne(s: Shape, x: int)
    requires s.Valid() && ValidIndex(s, x)
    ensures StrictlyAscending(SupersetSites(s, [x]))
    ensures forall y :: y in SupersetSites(s, [x]) <==> y in NeighbourSites(s, x, 1)
  {
    SupersetExact(s, [x]);
    forall y
      ensures y in SupersetSites(s, [x]) <==> y in NeighbourSites(s, x, 1)
    {
      assert [x][0] == x;
    }
  }
}
