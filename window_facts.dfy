/** What the window of one axis keeps: which raw coordinates survive the
    periodic correction and the range check, on periodic and on
    non-periodic axes. */
module WindowFacts {
  import opened LatticeShape
  import opened NeighbourSpec

  /** Every kept coordinate lies inside the lattice along its axis. */
  lemma {:induction false} KeptInAxis(s: Shape, axis: nat, lo: int, n: nat)
    requires s.Valid() && axis < 3
    ensures forall p :: 0 <= p < |Kept(s, axis, lo, n)| ==> InAxis(s, axis, Kept(s, axis, lo, n)[p])
  {
    if n > 0 {
      KeptInAxis(s, axis, lo, n - 1);
    }
  }

  /** A coordinate is kept exactly when it is in range and is the corrected
      value of one of the raw coordinates lo, ..., lo+n-1. */
  lemma {:induction false} KeptMembers(s: Shape, axis: nat, lo: int, n: nat, y: int)
    requires s.Valid() && axis < 3
    ensures y in Kept(s, axis, lo, n) <==>
              InAxis(s, axis, y) && exists v :: lo <= v < lo + n && Wrap(s, axis, v) == y
  {
    if n > 0 {
      KeptMembers(s, axis, lo, n - 1, y);
      var w := Wrap(s, axis, lo + n - 1);
      var init := Kept(s, axis, lo, n - 1);
      assert Kept(s, axis, lo, n) == init + (if InAxis(s, axis, w) then [w] else []);
      if y in Kept(s, axis, lo, n) {
        if y !in init {
          assert y == w && InAxis(s, axis, w);
          assert Wrap(s, axis, lo + n - 1) == y;
        }
      }
      if InAxis(s, axis, y) && exists v :: lo <= v < lo + n && Wrap(s, axis, v) == y {
        var v :| lo <= v < lo + n && Wrap(s, axis, v) == y;
        if v == lo + n - 1 {
          assert y == w;
        } else {
          assert y in init;
        }
      }
    }
  }

  /** A coordinate inside the lattice is left alone by the correction. */
  lemma WrapInAxis(s: Shape, axis: nat, v: int)
    requires s.Valid() && axis < 3 && InAxis(s, axis, v)
    ensures Wrap(s, axis, v) == v
  {
  }

  /** On a periodic axis the single correction of a raw coordinate within
      one period of the lattice is its remainder modulo the period, which
      is in range. */
  lemma WrapPeriodic(s: Shape, axis: nat, v: int)
    requires s.Valid() && axis < 3 && s.periodic[axis]
    requires -s.repetitions[axis] <= v < 2 * s.repetitions[axis]
    ensures Wrap(s, axis, v) == v % s.repetitions[axis]
    ensures InAxis(s, axis, Wrap(s, axis, v))
  {
    var r := s.repetitions[axis];
    if v < 0 {
      DivUnique(v, r, -1);
    } else if v >= r {
      DivUnique(v, r, 1);
    } else {
      DivUnique(v, r, 0);
    }
  }

  /** The centre of a window, when inside the lattice, is always kept. */
  lemma CentreKept(s: Shape, axis: nat, centre: int, shells: nat)
    requires s.Valid() && axis < 3 && InAxis(s, axis, centre)
    ensures centre in Window(s, axis, centre, shells)
  {
    WrapInAxis(s, axis, centre);
    KeptMembers(s, axis, centre - shells, 2 * shells + 1, centre);
  }

  /** A window of no shells around a coordinate inside the lattice keeps
      just that coordinate. */
  lemma WindowZero(s: Shape, axis: nat, centre: int)
    requires s.Valid() && axis < 3 && InAxis(s, axis, centre)
    ensures Window(s, axis, centre, 0) == [centre]
  {
    assert Kept(s, axis, centre, 1) == Kept(s, axis, centre, 0) + [centre];
  }

  /** When every raw coordinate survives, nothing is dropped and the d-th
      kept coordinate is the correction of the d-th raw one. */
  lemma {:induction false} KeptAll(s: Shape, axis: nat, lo: int, n: nat)
    requires s.Valid() && axis < 3
    requires forall v :: lo <= v < lo + n ==> InAxis(s, axis, Wrap(s, axis, v))
    ensures |Kept(s, axis, lo, n)| == n
    ensures forall d :: 0 <= d < n ==> Kept(s, axis, lo, n)[d] == Wrap(s, axis, lo + d)
  {
    if n > 0 {
      KeptAll(s, axis, lo, n - 1);
      assert InAxis(s, axis, Wrap(s, axis, lo + n - 1));
      assert Kept(s, axis, lo, n) == Kept(s, axis, lo, n - 1) + [Wrap(s, axis, lo + n - 1)];
    }
  }

  /** On a periodic axis with shells at most the period, the window keeps
      all 2*shells+1 offsets, the d-th being (centre - shells + d) modulo
      the period. */
  lemma PeriodicWindow(s: Shape, axis: nat, centre: int, shells: nat)
    requires s.Valid() && axis < 3 && s.periodic[axis]
    requires InAxis(s, axis, centre) && shells <= s.repetitions[axis]
    ensures |Window(s, axis, centre, shells)| == 2 * shells + 1
    ensures forall d :: 0 <= d < 2 * shells + 1 ==>
              Window(s, axis, centre, shells)[d] == (centre - shells + d) % s.repetitions[axis]
  {
    var lo, n := centre - shells, 2 * shells + 1;
    forall v | lo <= v < lo + n
      ensures InAxis(s, axis, Wrap(s, axis, v))
    {
      WrapPeriodic(s, axis, v);
    }
    KeptAll(s, axis, lo, n);
    forall d | 0 <= d < n
      ensures Window(s, axis, centre, shells)[d] == (centre - shells + d) % s.repetitions[axis]
    {
      WrapPeriodic(s, axis, lo + d);
    }
  }

  /** On a periodic axis no longer than the window, the window reaches every
      coordinate of the axis. */
  lemma PeriodicWindowCovers(s: Shape, axis: nat, centre: int, shells: nat, v: int)
    requires s.Valid() && axis < 3 && s.periodic[axis]
    requires InAxis(s, axis, centre) && InAxis(s, axis, v)
    requires shells <= s.repetitions[axis] <= 2 * shells + 1
    ensures v in Window(s, axis, centre, shells)
  {
    var r, lo := s.repetitions[axis], centre - shells;
    var d := (v - lo) % r;
    ModShift(v, lo, r);
    PeriodicWindow(s, axis, centre, shells);
    assert Window(s, axis, centre, shells)[d] == v;
  }

  /** Stepping (v - lo) mod r past lo lands on v modulo r. */
  lemma ModShift(v: int, lo: int, r: int)
    requires 0 <= v < r
    ensures 0 <= (v - lo) % r < r
    ensures (lo + (v - lo) % r) % r == v
  {
    var t := (v - lo) / r;
    assert v - t * r == lo + (v - lo) % r;
    assert (-t) * r == -(t * r);
    DivUnique(v - t * r, r, -t);
  }

  /** v clamped into 0 .. r. */
  function Clamp(r: int, v: int): (c: int)
    requires r >= 0
    ensures 0 <= c <= r
    ensures v <= 0 ==> c == 0
    ensures r <= v ==> c == r
    ensures 0 <= v <= r ==> c == v
  {
    if v < 0 then 0 else if v > r then r else v
  }

  /** On a non-periodic axis the raw coordinates lo, ..., lo+n-1 keep
      exactly those inside the lattice: an unbroken ascending run from
      the clamped lower end to the clamped upper end. */
  lemma {:induction false} NonPeriodicKept(s: Shape, axis: nat, lo: int, n: nat)
    requires s.Valid() && axis < 3 && !s.periodic[axis]
    ensures Clamp(s.repetitions[axis], lo) <= Clamp(s.repetitions[axis], lo + n)
    ensures Kept(s, axis, lo, n) ==
              Consecutive(Clamp(s.repetitions[axis], lo),
                          Clamp(s.repetitions[axis], lo + n) - Clamp(s.repetitions[axis], lo))
  {
    var r := s.repetitions[axis];
    if n > 0 {
      NonPeriodicKept(s, axis, lo, n - 1);
      var a, m := Clamp(r, lo), Clamp(r, lo + n - 1) - Clamp(r, lo);
      if 0 <= lo + n - 1 < r {
        assert Clamp(r, lo + n) - a == m + 1;
        assert a + m == lo + n - 1;
        assert Kept(s, axis, lo, n) == Kept(s, axis, lo, n - 1) + [lo + n - 1];
      } else {
        assert Clamp(r, lo + n) - a == m;
        assert Kept(s, axis, lo, n) == Kept(s, axis, lo, n - 1) + [];
      }
    }
  }
}
