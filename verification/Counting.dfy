/** Cardinalities of finite sets: images, ranges and overlaps. */
module Counting {

  lemma Inhabited<T>(s: set<T>) returns (x: T)
    requires |s| > 0
    ensures x in s
  {
    x :| x in s;
  }

  lemma {:induction false} SubsetCard<T>(a: set<T>, b: set<T>)
    requires a <= b
    ensures |a| <= |b|
    decreases b
  {
    if a != {} {
      var x :| x in a;
      SubsetCard(a - {x}, b - {x});
    }
  }

  /** Inclusion and exclusion, as a lower bound on the overlap. */
  lemma Overlap<T>(a: set<T>, b: set<T>, universe: set<T>)
    requires a <= universe && b <= universe
    ensures |a * b| >= |a| + |b| - |universe|
  {
    SubsetCard(a + b, universe);
  }

  ghost function Range(n: nat): (s: set<int>)
    ensures forall i :: i in s <==> 0 <= i < n
  {
    if n == 0 then {} else Range(n - 1) + {n - 1}
  }

  lemma {:induction false} RangeCard(n: nat)
    ensures |Range(n)| == n
  {
    if n > 0 {
      RangeCard(n - 1);
    }
  }

  /** The points standing at a set of positions. */
  ghost function At<T>(xs: seq<T>, positions: set<int>): (s: set<T>)
    requires forall i :: i in positions ==> 0 <= i < |xs|
  {
    set i | i in positions :: xs[i]
  }

  ghost predicate Distinct<T>(xs: seq<T>) {
    forall i, j :: 0 <= i < j < |xs| ==> xs[i] != xs[j]
  }

  lemma {:induction false} AtCard<T>(xs: seq<T>, positions: set<int>)
    requires forall i :: i in positions ==> 0 <= i < |xs|
    requires Distinct(xs)
    ensures |At(xs, positions)| == |positions|
    decreases positions
  {
    if positions != {} {
      var k := Inhabited(positions);
      var rest := positions - {k};
      AtCard(xs, rest);
      assert At(xs, positions) == At(xs, rest) + {xs[k]};
      assert xs[k] !in At(xs, rest);
    }
  }
}
