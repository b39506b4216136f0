/**
 Indices on a circle, for the circular lists of bio.c and umalloc.c, and the pigeonhole argument
 behind the scheduler's waiting bound.

 Cardinalities of sets of numbers are compared through their differences, since a set is the
 disjoint union of a subset and what is left.
 */
module Counting {

  // The index after i among n on a circle.
  function Succ(i: nat, n: nat): (r: nat)
    ensures i < n ==> r < n
  {
    if i + 1 == n then 0 else i + 1
  }

  // n distinct numbers below n leave none of them out.
  lemma Pigeonhole(xs: seq<int>, n: nat, me: nat)
    requires |xs| == n && me < n
    requires forall i | 0 <= i < n :: 0 <= xs[i] < n && xs[i] != me
    ensures exists i, j :: 0 <= i < j < n && xs[i] == xs[j]
  {
    if forall i, j | 0 <= i < j < n :: xs[i] != xs[j] {
      DistinctCount(xs);
      var values := set x | x in xs;
      assert values <= Range(0, n) - {me};
      RangeCount(0, n);
      SubsetCount(values, Range(0, n) - {me});
      assert false;
    }
  }

  function Range(a: int, b: int): (r: set<int>)
    ensures forall x :: x in r <==> a <= x < b
    decreases b - a
  {
    if a >= b then {} else Range(a, b - 1) + {b - 1}
  }

  lemma {:induction false} RangeCount(a: int, b: int)
    ensures |Range(a, b)| == if a < b then b - a else 0
    decreases b - a
  {
    if a < b {
      RangeCount(a, b - 1);
    }
  }

  lemma {:induction false} DistinctCount(xs: seq<int>)
    requires forall i, j | 0 <= i < j < |xs| :: xs[i] != xs[j]
    ensures |set x | x in xs| == |xs|
  {
    if xs != [] {
      var init, last := xs[..|xs| - 1], xs[|xs| - 1];
      DistinctCount(init);
      assert (set x | x in xs) == (set x | x in init) + {last};
    }
  }

  lemma SubsetCount(a: set<int>, b: set<int>)
    requires a <= b
    ensures |a| <= |b|
  {
    assert b == a + (b - a);
    assert |a + (b - a)| == |a| + |b - a|;
  }

  lemma JoinedRange(a: int, b: int, c: int, d: int)
    requires a <= c <= b <= d
    ensures Range(a, b) + Range(c, d) == Range(a, d)
  {
  }

  // What s and x together have beyond t.
  lemma BeyondCount(t: set<int>, s: set<int>, x: set<int>)
    ensures |s + x - t| == |s - t| + |x - (t + s)|
  {
    assert s + x - t == (s - t) + (x - (t + s));
  }

  lemma SameCount(a: set<int>, b: set<int>)
    requires a <= b && |a| == |b|
    ensures a == b
  {
    assert b == a + (b - a);
    assert |a + (b - a)| == |a| + |b - a|;
    assert b - a == {};
  }
}
