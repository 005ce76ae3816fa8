/** `split_on_gaps`: cutting a sampled point list into polylines at large jumps. */
module Polyline {
  import opened Common

  /** `math.hypot(q.x - p.x, q.y - p.y) > gap`, compared on squares: for `gap >= 0` the
    * two agree, and below zero every distance exceeds the gap. */
  predicate Far(p: Point, q: Point, gap: real) {
    gap < 0.0 || (q.x - p.x) * (q.x - p.x) + (q.y - p.y) * (q.y - p.y) > gap * gap
  }

  /** The points of a list of polylines, one polyline after the other. */
  function Concat(polys: seq<seq<Point>>): seq<Point> {
    if polys == [] then [] else polys[0] + Concat(polys[1..])
  }

  lemma {:induction false} ConcatSnoc(polys: seq<seq<Point>>, p: seq<Point>)
    ensures Concat(polys + [p]) == Concat(polys) + p
  {
    if polys != [] {
      assert (polys + [p])[1..] == polys[1..] + [p];
      ConcatSnoc(polys[1..], p);
    }
  }

  /** The groups `out` holds before the singletons are dropped: a new group starts at
    * every point that is far from its predecessor. */
  function Runs(pts: seq<Point>, gap: real): (rs: seq<seq<Point>>)
    ensures rs == [] <==> pts == []
  {
    if |pts| <= 1 then (if pts == [] then [] else [[pts[0]]])
    else
      var rs := Runs(pts[..|pts| - 1], gap);
      var p := pts[|pts| - 1];
      if Far(pts[|pts| - 2], p, gap) then rs + [[p]]
      else rs[..|rs| - 1] + [rs[|rs| - 1] + [p]]
  }

  /** Every group is non-empty. */
  ghost predicate NonEmptyRuns(rs: seq<seq<Point>>) {
    forall k :: 0 <= k < |rs| ==> rs[k] != []
  }

  /** Consecutive points of one group are within the gap. */
  ghost predicate CloseWithin(rs: seq<seq<Point>>, gap: real) {
    forall k, j :: 0 <= k < |rs| && 0 <= j < |rs[k]| - 1 ==> !Far(rs[k][j], rs[k][j + 1], gap)
  }

  /** The last point of each group is far from the first point of the next. */
  ghost predicate FarBetween(rs: seq<seq<Point>>, gap: real)
    requires NonEmptyRuns(rs)
  {
    forall k :: 0 <= k < |rs| - 1 ==> Far(rs[k][|rs[k]| - 1], rs[k + 1][0], gap)
  }

  lemma LastOfConcat(rs: seq<seq<Point>>)
    requires rs != [] && rs[|rs| - 1] != []
    ensures Concat(rs) != []
    ensures Concat(rs)[|Concat(rs)| - 1] == rs[|rs| - 1][|rs[|rs| - 1]| - 1]
  {
    assert rs == rs[..|rs| - 1] + [rs[|rs| - 1]];
    ConcatSnoc(rs[..|rs| - 1], rs[|rs| - 1]);
  }

  /** Opening a new group at a far point keeps the partition properties. */
  lemma StartRun(rs: seq<seq<Point>>, p: Point, gap: real)
    requires rs != [] && NonEmptyRuns(rs) && CloseWithin(rs, gap) && FarBetween(rs, gap)
    requires Far(rs[|rs| - 1][|rs[|rs| - 1]| - 1], p, gap)
    ensures NonEmptyRuns(rs + [[p]]) && CloseWithin(rs + [[p]], gap) && FarBetween(rs + [[p]], gap)
    ensures Concat(rs + [[p]]) == Concat(rs) + [p]
  {
    ConcatSnoc(rs, [p]);
    var rs' := rs + [[p]];
    forall k | 0 <= k < |rs'| - 1 ensures Far(rs'[k][|rs'[k]| - 1], rs'[k + 1][0], gap) {
      if k < |rs| - 1 {
        assert rs'[k] == rs[k] && rs'[k + 1] == rs[k + 1];
      }
    }
  }

  /** Appending a close point to the last group keeps the partition properties. */
  lemma ExtendRun(rs: seq<seq<Point>>, p: Point, gap: real)
    requires rs != [] && NonEmptyRuns(rs) && CloseWithin(rs, gap) && FarBetween(rs, gap)
    requires !Far(rs[|rs| - 1][|rs[|rs| - 1]| - 1], p, gap)
    ensures var rs' := rs[..|rs| - 1] + [rs[|rs| - 1] + [p]];
      && NonEmptyRuns(rs') && CloseWithin(rs', gap) && FarBetween(rs', gap)
      && Concat(rs') == Concat(rs) + [p]
  {
    var m := |rs|;
    var last := rs[m - 1];
    var rs' := rs[..m - 1] + [last + [p]];
    assert rs == rs[..m - 1] + [last];
    ConcatSnoc(rs[..m - 1], last);
    ConcatSnoc(rs[..m - 1], last + [p]);
    forall k, j | 0 <= k < |rs'| && 0 <= j < |rs'[k]| - 1
      ensures !Far(rs'[k][j], rs'[k][j + 1], gap)
    {
      if k < m - 1 {
        assert rs'[k] == rs[k];
      } else if j < |last| - 1 {
        assert rs'[k][j] == last[j] && rs'[k][j + 1] == last[j + 1];
      }
    }
    forall k | 0 <= k < |rs'| - 1 ensures Far(rs'[k][|rs'[k]| - 1], rs'[k + 1][0], gap) {
      assert rs'[k] == rs[k] && rs'[k + 1][0] == rs[k + 1][0];
    }
  }

  /** The partition properties of the groups of `pts`. */
  ghost predicate Partitions(rs: seq<seq<Point>>, pts: seq<Point>, gap: real) {
    Concat(rs) == pts && NonEmptyRuns(rs) && CloseWithin(rs, gap) && FarBetween(rs, gap)
  }

  /** Opening a group for a far point, in terms of the points covered. */
  lemma StartPartition(rs: seq<seq<Point>>, init: seq<Point>, p: Point, gap: real)
    requires init != [] && Partitions(rs, init, gap) && Far(init[|init| - 1], p, gap)
    ensures Partitions(rs + [[p]], init + [p], gap)
  {
    LastOfConcat(rs);
    StartRun(rs, p, gap);
  }

  /** Extending the last group by a close point, in terms of the points covered. */
  lemma ExtendPartition(rs: seq<seq<Point>>, init: seq<Point>, p: Point, gap: real)
    requires init != [] && Partitions(rs, init, gap) && !Far(init[|init| - 1], p, gap)
    ensures Partitions(rs[..|rs| - 1] + [rs[|rs| - 1] + [p]], init + [p], gap)
  {
    LastOfConcat(rs);
    ExtendRun(rs, p, gap);
  }

  /** A sequence is its prefix followed by its last element. */
  lemma SplitLast(pts: seq<Point>)
    requires pts != []
    ensures pts == pts[..|pts| - 1] + [pts[|pts| - 1]]
    ensures forall i :: 0 <= i < |pts| - 1 ==> pts[..|pts| - 1][i] == pts[i]
  {
  }

  /** The groups after a far step: the previous ones and the new point on its own. */
  lemma RunsStepFar(pts: seq<Point>, gap: real)
    requires |pts| > 1 && Far(pts[|pts| - 2], pts[|pts| - 1], gap)
    requires Partitions(Runs(pts[..|pts| - 1], gap), pts[..|pts| - 1], gap)
    ensures Partitions(Runs(pts, gap), pts, gap)
  {
    var init, p := pts[..|pts| - 1], pts[|pts| - 1];
    SplitLast(pts);
    StartPartition(Runs(init, gap), init, p, gap);
  }

  /** The groups after a close step: the last group extended by the new point. */
  lemma RunsStepClose(pts: seq<Point>, gap: real)
    requires |pts| > 1 && !Far(pts[|pts| - 2], pts[|pts| - 1], gap)
    requires Partitions(Runs(pts[..|pts| - 1], gap), pts[..|pts| - 1], gap)
    ensures Partitions(Runs(pts, gap), pts, gap)
  {
    var init, p := pts[..|pts| - 1], pts[|pts| - 1];
    SplitLast(pts);
    ExtendPartition(Runs(init, gap), init, p, gap);
  }

  /** The groups partition the input in order, each maximal: inside a group no step
    * exceeds the gap, and every group boundary is a step that does. */
  lemma {:induction false} RunsPartition(pts: seq<Point>, gap: real)
    ensures Concat(Runs(pts, gap)) == pts
    ensures NonEmptyRuns(Runs(pts, gap))
    ensures CloseWithin(Runs(pts, gap), gap)
    ensures FarBetween(Runs(pts, gap), gap)
  {
    if |pts| == 1 {
      assert Concat(Runs(pts, gap)) == [pts[0]] + Concat([]);
    } else if |pts| > 1 {
      RunsPartition(pts[..|pts| - 1], gap);
      if Far(pts[|pts| - 2], pts[|pts| - 1], gap) {
        RunsStepFar(pts, gap);
      } else {
        RunsStepClose(pts, gap);
      }
    }
  }

  /** `[poly for poly in out if len(poly) > 1]`. */
  function KeepLong(rs: seq<seq<Point>>): (r: seq<seq<Point>>)
    ensures forall k :: 0 <= k < |r| ==> |r[k]| >= 2
  {
    if rs == [] then [] else (if |rs[0]| > 1 then [rs[0]] else []) + KeepLong(rs[1..])
  }

  /** `a` is `b` with some elements left out, the rest in their order. */
  predicate Subsequence<T(==)>(a: seq<T>, b: seq<T>)
    decreases |b|
  {
    a == [] || (b != [] && ((a[0] == b[0] && Subsequence(a[1..], b[1..])) || Subsequence(a, b[1..])))
  }

  /** Dropping the short groups keeps every copy of each group of two or more points. */
  lemma {:induction false} KeepLongCounts(rs: seq<seq<Point>>)
    ensures forall r :: multiset(KeepLong(rs))[r] == (if |r| >= 2 then multiset(rs)[r] else 0)
  {
    if rs != [] {
      var rest := KeepLong(rs[1..]);
      KeepLongCounts(rs[1..]);
      assert rs == [rs[0]] + rs[1..];
      assert multiset(rs) == multiset([rs[0]]) + multiset(rs[1..]);
      if |rs[0]| > 1 {
        assert KeepLong(rs) == [rs[0]] + rest;
      } else {
        assert KeepLong(rs) == rest;
      }
    }
  }

  /** The kept groups appear in their original order. */
  lemma {:induction false} KeepLongOrder(rs: seq<seq<Point>>)
    ensures Subsequence(KeepLong(rs), rs)
  {
    if rs != [] {
      var rest := KeepLong(rs[1..]);
      KeepLongOrder(rs[1..]);
      if |rs[0]| > 1 {
        assert KeepLong(rs) == [rs[0]] + rest;
        assert KeepLong(rs)[1..] == rest;
      } else {
        assert KeepLong(rs) == rest;
      }
    }
  }

  /** Dropping the short groups keeps exactly the groups of two or more points, every
    * copy of each, in order. */
  lemma KeepLongKeeps(rs: seq<seq<Point>>)
    ensures forall r :: r in KeepLong(rs) <==> r in rs && |r| >= 2
    ensures forall r :: multiset(KeepLong(rs))[r] == (if |r| >= 2 then multiset(rs)[r] else 0)
    ensures Subsequence(KeepLong(rs), rs)
  {
    KeepLongCounts(rs);
    KeepLongOrder(rs);
    forall r ensures r in KeepLong(rs) <==> r in rs && |r| >= 2 {
      assert r in KeepLong(rs) <==> multiset(KeepLong(rs))[r] > 0;
      assert r in rs <==> multiset(rs)[r] > 0;
    }
  }

  /** Dropping groups keeps the steps inside the remaining ones within the gap. */
  lemma KeepLongClose(rs: seq<seq<Point>>, gap: real)
    requires CloseWithin(rs, gap)
    ensures CloseWithin(KeepLong(rs), gap)
  {
    var polys := KeepLong(rs);
    KeepLongKeeps(rs);
    forall k, j | 0 <= k < |polys| && 0 <= j < |polys[k]| - 1
      ensures !Far(polys[k][j], polys[k][j + 1], gap)
    {
      assert polys[k] in rs;
    }
  }

  lemma {:induction false} KeepLongSnoc(rs: seq<seq<Point>>, r: seq<Point>)
    ensures KeepLong(rs + [r]) == KeepLong(rs) + (if |r| > 1 then [r] else [])
  {
    if rs != [] {
      assert (rs + [r])[1..] == rs[1..] + [r];
      KeepLongSnoc(rs[1..], r);
    } else {
      assert [r][1..] == [];
    }
  }

  /** Point `i` forms a group on its own: neither neighbour is within the gap. */
  predicate Isolated(pts: seq<Point>, gap: real, i: int)
    requires 0 <= i < |pts|
  {
    (i == 0 || Far(pts[i - 1], pts[i], gap)) && (i == |pts| - 1 || Far(pts[i], pts[i + 1], gap))
  }

  /** The points among the first `n` that are not isolated, in order. */
  function KeptFrom(pts: seq<Point>, gap: real, n: int): seq<Point>
    requires 0 <= n <= |pts|
  {
    if n == 0 then []
    else KeptFrom(pts, gap, n - 1) + (if Isolated(pts, gap, n - 1) then [] else [pts[n - 1]])
  }

  /** The input with every isolated point removed. */
  function KeptPoints(pts: seq<Point>, gap: real): seq<Point> {
    KeptFrom(pts, gap, |pts|)
  }

  /** Below the last two points, appending a point does not change which points are
    * isolated. */
  lemma {:induction false} KeptPrefix(pts: seq<Point>, gap: real, n: int)
    requires |pts| >= 1 && 0 <= n <= |pts| - 2
    ensures KeptFrom(pts, gap, n) == KeptFrom(pts[..|pts| - 1], gap, n)
  {
    if n > 0 {
      KeptPrefix(pts, gap, n - 1);
      var init := pts[..|pts| - 1];
      assert Isolated(pts, gap, n - 1) == Isolated(init, gap, n - 1);
    }
  }

  /** The last group ends with the last point, and holds that point alone exactly when
    * it is the first point or is far from its predecessor. */
  lemma LastRun(pts: seq<Point>, gap: real)
    requires pts != []
    ensures var rs := Runs(pts, gap);
      && rs[|rs| - 1] != []
      && rs[|rs| - 1][|rs[|rs| - 1]| - 1] == pts[|pts| - 1]
      && (|rs[|rs| - 1]| == 1 <==> |pts| == 1 || Far(pts[|pts| - 2], pts[|pts| - 1], gap))
  {
    RunsPartition(pts, gap);
    LastOfConcat(Runs(pts, gap));
    if |pts| > 1 {
      RunsPartition(pts[..|pts| - 1], gap);
    }
  }

  /** What appending the last point adds to the kept points: nothing when it is far from
    * its predecessor; itself when its predecessor was already kept; both otherwise. */
  function StepGain(pts: seq<Point>, gap: real): seq<Point>
    requires |pts| >= 2
  {
    var q, p := pts[|pts| - 2], pts[|pts| - 1];
    if Far(q, p, gap) then []
    else if |pts| == 2 || Far(pts[|pts| - 3], q, gap) then [q, p]
    else [p]
  }

  lemma KeptStep(pts: seq<Point>, gap: real)
    requires |pts| >= 2
    ensures KeptPoints(pts, gap) == KeptPoints(pts[..|pts| - 1], gap) + StepGain(pts, gap)
  {
    var m := |pts|;
    var init, q, p := pts[..m - 1], pts[m - 2], pts[m - 1];
    KeptPrefix(pts, gap, m - 2);
    assert init[m - 2] == q;
    assert m > 2 ==> init[m - 3] == pts[m - 3];
    assert KeptPoints(init, gap) == KeptFrom(pts, gap, m - 2) + (if Isolated(init, gap, m - 2) then [] else [q]);
    assert KeptFrom(pts, gap, m - 1) == KeptFrom(pts, gap, m - 2) + (if Isolated(pts, gap, m - 2) then [] else [q]);
    assert KeptPoints(pts, gap) == KeptFrom(pts, gap, m - 1) + (if Isolated(pts, gap, m - 1) then [] else [p]);
  }

  /** Extending the last group by one point adds that point to the kept points, and the
    * group's first point too when the group held only that point before. */
  lemma KeepExtend(pre: seq<seq<Point>>, last: seq<Point>, p: Point)
    requires last != []
    ensures Concat(KeepLong(pre + [last + [p]]))
      == Concat(KeepLong(pre + [last])) + (if |last| == 1 then last + [p] else [p])
  {
    KeepLongSnoc(pre, last);
    KeepLongSnoc(pre, last + [p]);
    ConcatSnoc(KeepLong(pre), last + [p]);
    if |last| > 1 {
      ConcatSnoc(KeepLong(pre), last);
    } else {
      assert KeepLong(pre) + [] == KeepLong(pre);
    }
  }

  lemma KeepStepFar(pts: seq<Point>, gap: real)
    requires |pts| >= 2 && Far(pts[|pts| - 2], pts[|pts| - 1], gap)
    ensures Concat(KeepLong(Runs(pts, gap))) == Concat(KeepLong(Runs(pts[..|pts| - 1], gap)))
  {
    var rs0 := Runs(pts[..|pts| - 1], gap);
    assert Runs(pts, gap) == rs0 + [[pts[|pts| - 1]]];
    KeepLongSnoc(rs0, [pts[|pts| - 1]]);
    assert KeepLong(rs0) + [] == KeepLong(rs0);
  }

  /** After a close step, the gain is the new point, preceded by the previous point
    * when that one stood alone in its group. */
  lemma CloseGain(pts: seq<Point>, gap: real)
    requires |pts| >= 2 && !Far(pts[|pts| - 2], pts[|pts| - 1], gap)
    ensures var rs0 := Runs(pts[..|pts| - 1], gap);
      && rs0 != [] && rs0[|rs0| - 1] != []
      && StepGain(pts, gap) == if |rs0[|rs0| - 1]| == 1 then rs0[|rs0| - 1] + [pts[|pts| - 1]] else [pts[|pts| - 1]]
  {
    var m := |pts|;
    var init, q := pts[..m - 1], pts[m - 2];
    var rs0 := Runs(init, gap);
    LastRun(init, gap);
    var last := rs0[|rs0| - 1];
    assert init[m - 2] == q;
    assert m > 2 ==> init[m - 3] == pts[m - 3];
    if |last| == 1 {
      assert last == [q];
    }
  }

  lemma KeepStepClose(pts: seq<Point>, gap: real)
    requires |pts| >= 2 && !Far(pts[|pts| - 2], pts[|pts| - 1], gap)
    ensures Concat(KeepLong(Runs(pts, gap))) == Concat(KeepLong(Runs(pts[..|pts| - 1], gap))) + StepGain(pts, gap)
  {
    var rs0, p := Runs(pts[..|pts| - 1], gap), pts[|pts| - 1];
    CloseGain(pts, gap);
    var pre, last := rs0[..|rs0| - 1], rs0[|rs0| - 1];
    assert rs0 == pre + [last];
    assert Runs(pts, gap) == pre + [last + [p]];
    KeepExtend(pre, last, p);
  }

  /** Splitting and dropping the short groups keeps exactly the points that are not
    * isolated, in their order. */
  lemma {:induction false} KeptIsNotIsolated(pts: seq<Point>, gap: real)
    ensures Concat(KeepLong(Runs(pts, gap))) == KeptPoints(pts, gap)
  {
    if |pts| == 1 {
      assert Runs(pts, gap) == [[pts[0]]];
      assert KeepLong([[pts[0]]]) == KeepLong([[pts[0]]][1..]) == [];
      assert Isolated(pts, gap, 0);
      assert KeptPoints(pts, gap) == KeptFrom(pts, gap, 0) + [];
    } else if |pts| > 1 {
      KeptIsNotIsolated(pts[..|pts| - 1], gap);
      if Far(pts[|pts| - 2], pts[|pts| - 1], gap) {
        KeepStepFar(pts, gap);
      } else {
        KeepStepClose(pts, gap);
      }
      KeptStep(pts, gap);
    }
  }

  /** The polylines of `split_on_gaps`: steps within each stay inside the gap, and
    * together they hold exactly the points that are not isolated. */
  lemma SplitMeaning(points: seq<Point>, gap: real)
    ensures CloseWithin(KeepLong(Runs(points, gap)), gap)
    ensures Concat(KeepLong(Runs(points, gap))) == KeptPoints(points, gap)
  {
    RunsPartition(points, gap);
    KeepLongClose(Runs(points, gap), gap);
    KeptIsNotIsolated(points, gap);
  }

  /** `split_on_gaps`: walks the points, opening a new group at every far step, then
    * drops the groups of a single point. */
  method SplitOnGaps(points: seq<Point>, gap: real) returns (polys: seq<seq<Point>>)
    ensures polys == KeepLong(Runs(points, gap))
    ensures points == [] ==> polys == []
    ensures forall k :: 0 <= k < |polys| ==> |polys[k]| >= 2
    ensures forall k, j :: 0 <= k < |polys| && 0 <= j < |polys[k]| - 1 ==> !Far(polys[k][j], polys[k][j + 1], gap)
    ensures Concat(polys) == KeptPoints(points, gap)
  {
    if points == [] {
      return [];
    }
    var out := [[points[0]]];
    var prev := points[0];
    var i := 1;
    while i < |points|
      invariant 1 <= i <= |points|
      invariant out == Runs(points[..i], gap)
      invariant prev == points[i - 1]
    {
      var p := points[i];
      assert points[..i + 1][..i] == points[..i];
      ghost var rs := out;
      if Far(prev, p, gap) {
        out := out + [[]];
        assert out[..|out| - 1] == rs && out[|out| - 1] + [p] == [p];
      }
      out := out[..|out| - 1] + [out[|out| - 1] + [p]];
      prev := p;
      i := i + 1;
    }
    assert points[..i] == points;
    polys := KeepLong(out);
    SplitMeaning(points, gap);
  }
}
