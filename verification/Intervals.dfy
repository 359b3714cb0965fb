/** Sums of sizes, and half-open ranges that pack without overlap. */
module Intervals {

  function Sum(xs: seq<nat>): nat {
    if xs == [] then 0 else Sum(xs[..|xs| - 1]) + xs[|xs| - 1]
  }

  lemma {:induction false} SumAppend(xs: seq<nat>, ys: seq<nat>)
    ensures Sum(xs + ys) == Sum(xs) + Sum(ys)
  {
    if ys == [] {
      assert xs + ys == xs;
    } else {
      var front := ys[..|ys| - 1];
      SumAppend(xs, front);
      assert (xs + ys)[..|xs + ys| - 1] == xs + front;
    }
  }

  /** The total of `f` over a sequence. */
  function SumOf<T>(xs: seq<T>, f: T -> nat): nat {
    if xs == [] then 0 else SumOf(xs[..|xs| - 1], f) + f(xs[|xs| - 1])
  }

  lemma {:induction false} SumOfAppend<T>(xs: seq<T>, ys: seq<T>, f: T -> nat)
    ensures SumOf(xs + ys, f) == SumOf(xs, f) + SumOf(ys, f)
  {
    if ys == [] {
      assert xs + ys == xs;
    } else {
      var front := ys[..|ys| - 1];
      SumOfAppend(xs, front, f);
      assert (xs + ys)[..|xs + ys| - 1] == xs + front;
    }
  }

  lemma WithoutLast<T>(xs: seq<T>)
    requires xs != []
    ensures multiset(xs[..|xs| - 1]) == multiset(xs) - multiset{xs[|xs| - 1]}
    ensures xs[|xs| - 1] in multiset(xs)
  {
    assert xs == xs[..|xs| - 1] + [xs[|xs| - 1]];
  }

  lemma WithoutOne<T>(ys: seq<T>, k: nat)
    requires k < |ys|
    ensures multiset(ys[..k] + ys[k + 1..]) == multiset(ys) - multiset{ys[k]}
  {
    assert ys == ys[..k] + [ys[k]] + ys[k + 1..];
  }

  /** Totals do not depend on the order of the summands. */
  lemma {:induction false} SumOfPermutation<T>(xs: seq<T>, ys: seq<T>, f: T -> nat)
    requires multiset(xs) == multiset(ys)
    ensures SumOf(xs, f) == SumOf(ys, f)
    decreases |xs|
  {
    assert |xs| == |multiset(xs)| && |ys| == |multiset(ys)|;
    if xs != [] {
      var last := xs[|xs| - 1];
      WithoutLast(xs);
      var k :| 0 <= k < |ys| && ys[k] == last;
      WithoutOne(ys, k);
      SumOfPermutation(xs[..|xs| - 1], ys[..k] + ys[k + 1..], f);
      SumOfMiddle(ys, k, f);
    }
  }

  lemma SumOfOne<T>(x: T, f: T -> nat)
    ensures SumOf([x], f) == f(x)
  {
    assert [x][..0] == [];
  }

  lemma SumOfMiddle<T>(ys: seq<T>, k: nat, f: T -> nat)
    requires k < |ys|
    ensures SumOf(ys, f) == SumOf(ys[..k] + ys[k + 1..], f) + f(ys[k])
  {
    hide SumOf;
    SumOfOne(ys[k], f);
    SumOfAppend(ys[..k], ys[k + 1..], f);
    SumOfAppend(ys[..k], [ys[k]], f);
    SumOfAppend(ys[..k] + [ys[k]], ys[k + 1..], f);
    assert ys == ys[..k] + [ys[k]] + ys[k + 1..];
  }

  lemma SumOfPrefix<T>(xs: seq<T>, k: nat, f: T -> nat)
    requires k <= |xs|
    ensures SumOf(xs[..k], f) <= SumOf(xs, f)
  {
    assert xs == xs[..k] + xs[k..];
    SumOfAppend(xs[..k], xs[k..], f);
  }

  /** A running total never passes the final one. */
  lemma {:induction false} SumPrefix(xs: seq<nat>, k: nat)
    requires k <= |xs|
    ensures Sum(xs[..k]) <= Sum(xs)
  {
    assert xs == xs[..k] + xs[k..];
    SumAppend(xs[..k], xs[k..]);
  }

  // ----- ranges

  datatype Range = Range(start: nat, size: nat) {
    function End(): nat {
      start + size
    }

    predicate Contains(x: int) {
      start <= x < start + size
    }
  }

  /** The overlap test the validators use; two empty ranges never meet. */
  predicate Overlap(a: Range, b: Range) {
    a.start < b.End() && b.start < a.End()
  }

  /** Two non-empty ranges overlap exactly when they share a point. */
  lemma OverlapMeansShared(a: Range, b: Range)
    requires a.size > 0 && b.size > 0
    ensures Overlap(a, b) <==> exists x :: a.Contains(x) && b.Contains(x)
  {
    var x := if a.start < b.start then b.start else a.start;
    if Overlap(a, b) {
      assert a.Contains(x) && b.Contains(x);
    }
  }

  /** No two of the non-empty ranges meet. */
  ghost predicate Disjoint(rs: seq<Range>) {
    forall i, j :: 0 <= i < j < |rs| && rs[i].size > 0 && rs[j].size > 0 ==> !Overlap(rs[i], rs[j])
  }

  ghost predicate Within(rs: seq<Range>, lo: nat, hi: nat) {
    forall i :: 0 <= i < |rs| && rs[i].size > 0 ==> lo <= rs[i].start && rs[i].End() <= hi
  }

  function Sizes(rs: seq<Range>): (xs: seq<nat>)
    ensures |xs| == |rs|
    ensures forall i :: 0 <= i < |rs| ==> xs[i] == rs[i].size
  {
    seq(|rs|, i requires 0 <= i < |rs| => rs[i].size)
  }

  ghost function Points(r: Range): (s: set<int>)
    ensures forall x :: x in s <==> r.Contains(x)
  {
    set x | r.start <= x < r.End() && r.Contains(x)
  }

  ghost function AllPoints(rs: seq<Range>): (s: set<int>)
    ensures forall x :: x in s <==> exists i :: 0 <= i < |rs| && rs[i].Contains(x)
  {
    if rs == [] then {}
    else
      var front, last := rs[..|rs| - 1], rs[|rs| - 1];
      assert forall i :: 0 <= i < |rs| ==> rs[i] == if i < |front| then front[i] else last;
      AllPoints(front) + Points(last)
  }

  lemma LastPoint(r: Range)
    requires r.size > 0
    ensures Points(r) == Points(Range(r.start, r.size - 1)) + {r.start + r.size - 1}
    ensures r.start + r.size - 1 !in Points(Range(r.start, r.size - 1))
  {
  }

  lemma {:induction false} PointsCount(r: Range)
    ensures |Points(r)| == r.size
    decreases r.size
  {
    if r.size > 0 {
      var shorter := Range(r.start, r.size - 1);
      LastPoint(r);
      PointsCount(shorter);
      hide Points;
      assert |Points(shorter) + {r.start + r.size - 1}| == |Points(shorter)| + 1;
    } else {
      assert Points(r) == {};
    }
  }

  lemma SubsetCount(a: set<int>, b: set<int>)
    requires a <= b
    ensures |a| <= |b|
  {
    assert b == a + (b - a);
  }

  /** Disjoint ranges cover exactly as many points as their sizes add up to. */
  lemma {:induction false} DisjointCover(rs: seq<Range>)
    requires Disjoint(rs)
    ensures |AllPoints(rs)| == Sum(Sizes(rs))
  {
    if rs != [] {
      var front, last := rs[..|rs| - 1], rs[|rs| - 1];
      DisjointPrefix(rs, |rs| - 1);
      DisjointCover(front);
      PointsCount(last);
      LastIsApart(rs);
      assert Sizes(rs)[..|rs| - 1] == Sizes(front);
    }
  }

  lemma LastIsApart(rs: seq<Range>)
    requires Disjoint(rs) && rs != []
    ensures AllPoints(rs[..|rs| - 1]) !! Points(rs[|rs| - 1])
  {
    hide Overlap;
    var front, last := rs[..|rs| - 1], rs[|rs| - 1];
    forall x | x in AllPoints(front)
      ensures x !in Points(last)
    {
      var i :| 0 <= i < |front| && front[i].Contains(x);
      assert rs[i] == front[i];
      if last.Contains(x) {
        OverlapMeansShared(rs[i], last);
      }
    }
  }

  /** Disjoint ranges inside a window are together no larger than the window. */
  lemma Packing(rs: seq<Range>, lo: nat, hi: nat)
    requires lo <= hi
    requires Disjoint(rs) && Within(rs, lo, hi)
    ensures Sum(Sizes(rs)) <= hi - lo
  {
    DisjointCover(rs);
    var window := Range(lo, hi - lo);
    PointsCount(window);
    forall x | x in AllPoints(rs)
      ensures x in Points(window)
    {
      var i :| 0 <= i < |rs| && rs[i].Contains(x);
    }
    SubsetCount(AllPoints(rs), Points(window));
  }

  /** At most one of the ranges holds any given point. */
  lemma UniqueHolder(rs: seq<Range>, i: nat, j: nat, x: int)
    requires Disjoint(rs) && i < |rs| && j < |rs|
    requires rs[i].Contains(x) && rs[j].Contains(x)
    ensures i == j
  {
    OverlapMeansShared(rs[i], rs[j]);
  }

  // ----- the validators' running overlap checks

  method MeetsAny(r: Range, ranges: seq<Range>) returns (meets: bool)
    ensures meets <==> exists k :: 0 <= k < |ranges| && Overlap(r, ranges[k])
  {
    for k := 0 to |ranges|
      invariant forall j :: 0 <= j < k ==> !Overlap(r, ranges[j])
    {
      if Overlap(r, ranges[k]) { return true; }
    }
    return false;
  }

  /** `ranges` holds exactly the non-empty ranges of `all`. */
  ghost predicate Collects(ranges: seq<Range>, all: seq<Range>) {
    && (forall k :: 0 <= k < |ranges| ==> ranges[k].size > 0 && ranges[k] in all)
    && (forall j :: 0 <= j < |all| && all[j].size > 0 ==> all[j] in ranges)
  }

  function Collected(ranges: seq<Range>, r: Range): seq<Range> {
    if r.size > 0 then ranges + [r] else ranges
  }

  lemma NothingCollected(all: seq<Range>)
    ensures Disjoint(all[..0]) && Collects([], all[..0])
  {
  }

  /** One step: the next range keeps the whole disjoint exactly when it meets nothing collected so far. */
  lemma CollectNext(ranges: seq<Range>, all: seq<Range>, i: nat)
    requires i < |all| && Disjoint(all[..i]) && Collects(ranges, all[..i])
    ensures Collects(Collected(ranges, all[i]), all[..i + 1])
    ensures Disjoint(all[..i + 1])
       <==> all[i].size == 0 || !exists k :: 0 <= k < |ranges| && Overlap(all[i], ranges[k])
    ensures !Disjoint(all[..i + 1]) ==> !Disjoint(all)
  {
    hide Overlap;
    assert all[..i + 1] == all[..i] + [all[i]];
    assert Collects(Collected(ranges, all[i]), all[..i + 1]) by {
      CollectOne(ranges, all[..i], all[i]);
    }
    DisjointPrefix(all, i + 1);
    if all[i].size > 0 {
      DisjointStep(ranges, all[..i], all[i]);
    } else {
      EmptyStep(all[..i], all[i]);
    }
  }

  lemma CollectOne(ranges: seq<Range>, front: seq<Range>, r: Range)
    requires Collects(ranges, front)
    ensures Collects(Collected(ranges, r), front + [r])
  {
    var all := front + [r];
    forall j | 0 <= j < |all| && all[j].size > 0
      ensures all[j] in Collected(ranges, r)
    {
      if j < |front| {
        assert front[j] in ranges;
      }
    }
  }

  lemma DisjointPrefix(all: seq<Range>, i: nat)
    requires i <= |all|
    ensures Disjoint(all) ==> Disjoint(all[..i])
  {
    hide Overlap;
    var front := all[..i];
    assert forall j :: 0 <= j < i ==> front[j] == all[j];
  }

  lemma EmptyStep(front: seq<Range>, r: Range)
    requires Disjoint(front) && r.size == 0
    ensures Disjoint(front + [r])
  {
    hide Overlap;
    var all := front + [r];
    assert forall j :: 0 <= j < |front| ==> all[j] == front[j];
  }

  lemma OverlapSymmetric(a: Range, b: Range)
    ensures Overlap(a, b) <==> Overlap(b, a)
  {
  }

  lemma DisjointStep(ranges: seq<Range>, front: seq<Range>, r: Range)
    requires Disjoint(front) && Collects(ranges, front) && r.size > 0
    ensures Disjoint(front + [r]) <==> forall k :: 0 <= k < |ranges| ==> !Overlap(r, ranges[k])
  {
    hide Overlap;
    var all := front + [r];
    assert forall j :: 0 <= j < |front| ==> all[j] == front[j];
    if k :| 0 <= k < |ranges| && Overlap(r, ranges[k]) {
      var j :| 0 <= j < |front| && front[j] == ranges[k];
      OverlapSymmetric(r, ranges[k]);
      assert all[j].size > 0 && all[|front|].size > 0 && Overlap(all[j], all[|front|]);
    } else {
      forall j | 0 <= j < |front| && all[j].size > 0
        ensures !Overlap(all[j], all[|front|])
      {
        assert front[j] in ranges;
        var k :| 0 <= k < |ranges| && ranges[k] == front[j];
        OverlapSymmetric(r, ranges[k]);
      }
    }
  }
}
