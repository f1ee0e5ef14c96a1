/** Sorting a buffer of site indices in place and collapsing its runs of
    equal entries, as the standard algorithms sort and unique do on a
    vector. */
module Sorting {

  predicate Sorted(s: seq<int>) {
    forall p, q :: 0 <= p < q < |s| ==> s[p] <= s[q]
  }

  predicate StrictlyAscending(s: seq<int>) {
    forall p, q :: 0 <= p < q < |s| ==> s[p] < s[q]
  }

  // ---------------------------------------------------------------------------
  // In-place sort

  /** Exchanges a[i] and a[j]; the contents stay a permutation. */
  method Swap(a: array<int>, i: int, j: int)
    requires 0 <= i < a.Length && 0 <= j < a.Length
    modifies a
    ensures a[..] == old(a[..])[i := old(a[j])][j := old(a[i])]
    ensures multiset(a[..]) == old(multiset(a[..]))
  {
    a[i], a[j] := a[j], a[i];
  }

  /** Sinks a[n] into the sorted prefix a[..n] by adjacent exchanges. */
  method InsertOne(a: array<int>, n: int)
    requires 0 <= n < a.Length
    requires forall p, q :: 0 <= p < q < n ==> a[p] <= a[q]
    modifies a
    ensures forall p, q :: 0 <= p < q <= n ==> a[p] <= a[q]
    ensures forall p :: n < p < a.Length ==> a[p] == old(a[p])
    ensures multiset(a[..]) == old(multiset(a[..]))
  {
    var j := n;
    while j > 0 && a[j - 1] > a[j]
      invariant 0 <= j <= n
      invariant forall p, q :: 0 <= p < q <= n && q != j ==> a[p] <= a[q]
      invariant forall p :: n < p < a.Length ==> a[p] == old(a[p])
      invariant multiset(a[..]) == old(multiset(a[..]))
    {
      Swap(a, j - 1, j);
      j := j - 1;
    }
  }

  /** Sorts a in place, leaving a permutation of its old contents. */
  method InsertionSort(a: array<int>)
    modifies a
    ensures Sorted(a[..])
    ensures multiset(a[..]) == old(multiset(a[..]))
  {
    var n := 0;
    while n < a.Length
      invariant 0 <= n <= a.Length
      invariant forall p, q :: 0 <= p < q < n ==> a[p] <= a[q]
      invariant multiset(a[..]) == old(multiset(a[..]))
    {
      InsertOne(a, n);
      n := n + 1;
    }
  }

  // ---------------------------------------------------------------------------
  // Collapsing runs of equal entries

  /** s with every run of equal adjacent entries reduced to one entry. */
  function CollapseRuns(s: seq<int>): (r: seq<int>)
    ensures |r| <= |s|
    ensures |s| > 0 ==> |r| > 0 && r[|r| - 1] == s[|s| - 1]
  {
    if |s| <= 1 then s
    else
      var init := CollapseRuns(s[..|s| - 1]);
      if s[|s| - 1] == s[|s| - 2] then init else init + [s[|s| - 1]]
  }

  /** Moves the first entry of each run of equal adjacent entries to the
      front of a and returns the number of runs; a[..len] holds them. */
  method Unique(a: array<int>) returns (len: nat)
    modifies a
    ensures len <= a.Length
    ensures a[..len] == CollapseRuns(old(a[..]))
  {
    if a.Length == 0 {
      return 0;
    }
    ghost var s := a[..];
    var result := 0;
    var first := 1;
    while first < a.Length
      invariant 0 <= result < first <= a.Length
      invariant a[..result + 1] == CollapseRuns(s[..first])
      invariant a[result] == s[first - 1]
      invariant forall t :: first <= t < a.Length ==> a[t] == s[t]
    {
      ghost var done := a[..result + 1];
      assert s[..first + 1][..first] == s[..first];
      assert CollapseRuns(s[..first + 1]) == if s[first] == s[first - 1] then done else done + [s[first]];
      if a[result] != a[first] {
        result := result + 1;
        a[result] := a[first];
        assert a[..result + 1] == done + [s[first]];
      }
      first := first + 1;
    }
    assert s[..first] == s;
    len := result + 1;
  }

  // ---------------------------------------------------------------------------
  // What sorting and collapsing give together

  /** The distinct entries of v in increasing order, by sorting a buffer
      holding v and cutting it to the first entry of each run. */
  method SortUnique(v: seq<int>) returns (r: seq<int>)
    ensures StrictlyAscending(r)
    ensures forall y :: y in r <==> y in v
  {
    var buffer := new int[|v|];
    forall p | 0 <= p < |v| {
      buffer[p] := v[p];
    }
    assert buffer[..] == v;
    InsertionSort(buffer);
    ghost var sorted := buffer[..];
    var len := Unique(buffer);
    r := buffer[..len];
    CollapseRunsAscending(sorted);
    CollapseRunsMembers(sorted);
    forall y
      ensures y in r <==> y in v
    {
      assert y in sorted <==> y in multiset(sorted);
    }
  }

  lemma {:induction false} CollapseRunsMembers(s: seq<int>)
    ensures forall y :: y in CollapseRuns(s) <==> y in s
    decreases |s|
  {
    if |s| > 1 {
      var init := s[..|s| - 1];
      CollapseRunsMembers(init);
      assert s == init + [s[|s| - 1]];
    }
  }

  lemma {:induction false} CollapseRunsAscending(s: seq<int>)
    requires Sorted(s)
    ensures StrictlyAscending(CollapseRuns(s))
    decreases |s|
  {
    if |s| > 1 {
      var init := s[..|s| - 1];
      CollapseRunsAscending(init);
      CollapseRunsMembers(init);
      var r := CollapseRuns(init);
      if s[|s| - 1] != s[|s| - 2] {
        forall p | 0 <= p < |r|
          ensures r[p] < s[|s| - 1]
        {
          assert r[p] in init;
        }
      }
    }
  }

  /** Two strictly ascending sequences with the same members are equal. */
  lemma {:induction false} AscendingDetermined(a: seq<int>, b: seq<int>)
    requires StrictlyAscending(a) && StrictlyAscending(b)
    requires forall y :: y in a <==> y in b
    ensures a == b
    decreases |a| + |b|
  {
    if a != [] && b != [] {
      var a', b' := a[..|a| - 1], b[..|b| - 1];
      var x, y := a[|a| - 1], b[|b| - 1];
      assert x in a && y in b;
      LastIsGreatest(a, y);
      LastIsGreatest(b, x);
      assert x == y;
      InitMembers(a);
      InitMembers(b);
      forall z
        ensures z in a' <==> z in b'
      {
        assert z in a' <==> z in a && z != x;
        assert z in b' <==> z in b && z != y;
        assert z in a <==> z in b;
      }
      AscendingDetermined(a', b');
      assert a == a' + [x] && b == b' + [y];
    } else if a != [] {
      HeadMember(a);
      assert false;
    } else if b != [] {
      HeadMember(b);
      assert false;
    }
  }

  /** The last entry of a strictly ascending sequence bounds its members. */
  lemma LastIsGreatest(a: seq<int>, y: int)
    requires StrictlyAscending(a) && y in a
    ensures y <= a[|a| - 1]
  {
  }

  /** Dropping the last entry of a strictly ascending sequence removes
      exactly that value and keeps it strictly ascending. */
  lemma InitMembers(a: seq<int>)
    requires StrictlyAscending(a) && a != []
    ensures StrictlyAscending(a[..|a| - 1])
    ensures forall z :: z in a[..|a| - 1] <==> z in a && z != a[|a| - 1]
  {
    var a' := a[..|a| - 1];
    forall z
      ensures z in a' <==> z in a && z != a[|a| - 1]
    {
      if z in a' {
        var p :| 0 <= p < |a'| && a'[p] == z;
        assert a[p] == z;
      }
      if z in a && z != a[|a| - 1] {
        var p :| 0 <= p < |a| && a[p] == z;
        assert a'[p] == z;
      }
    }
  }

  lemma HeadMember(a: seq<int>)
    requires a != []
    ensures a[0] in a
  {
  }
}
