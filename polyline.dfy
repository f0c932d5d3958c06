/** The common shape of `build_fractal` and `split_largest_2`: walk a polyline and, before
    each of its points, emit a (possibly empty) run of new points. */
module Polyline {

  /** Sum of the lengths of the runs. */
  function SumLen<T>(gaps: seq<seq<T>>): (r: nat)
    ensures gaps == [] ==> r == 0
  {
    if gaps == [] then 0 else SumLen(gaps[..|gaps| - 1]) + |gaps[|gaps| - 1]|
  }

  /** pts with gaps[i] emitted immediately before pts[i]. */
  function Spliced<T>(pts: seq<T>, gaps: seq<seq<T>>): (r: seq<T>)
    requires |gaps| == |pts|
    ensures |r| == |pts| + SumLen(gaps)
  {
    if pts == [] then []
    else
      var n := |pts| - 1;
      Spliced(pts[..n], gaps[..n]) + gaps[n] + [pts[n]]
  }

  /** Position of pts[i] in Spliced(pts, gaps). */
  function Offset<T>(gaps: seq<seq<T>>, i: nat): nat
    requires i < |gaps|
  {
    i + SumLen(gaps[..i + 1])
  }

  /** Spliced of a prefix of the inputs is a prefix of the whole. */
  lemma {:induction false} SplicedPrefix<T>(pts: seq<T>, gaps: seq<seq<T>>, k: nat)
    requires |gaps| == |pts| && k <= |pts|
    ensures k + SumLen(gaps[..k]) <= |Spliced(pts, gaps)|
    ensures Spliced(pts, gaps)[..k + SumLen(gaps[..k])] == Spliced(pts[..k], gaps[..k])
    decreases |pts| - k
  {
    if k < |pts| {
      var n := |pts| - 1;
      assert pts[..n][..k] == pts[..k];
      assert gaps[..n][..k] == gaps[..k];
      SplicedPrefix(pts[..n], gaps[..n], k);
      var whole := Spliced(pts, gaps);
      var init := Spliced(pts[..n], gaps[..n]);
      assert whole == init + gaps[n] + [pts[n]];
      assert whole[..|init|] == init;
    } else {
      assert pts[..k] == pts;
      assert gaps[..k] == gaps;
    }
  }

  /** Extending the inputs by one point extends the output by that point's run and the point. */
  lemma SplicedStep<T>(pts: seq<T>, gaps: seq<seq<T>>, i: nat)
    requires |gaps| == |pts| && i < |pts|
    ensures Spliced(pts[..i + 1], gaps[..i + 1]) == Spliced(pts[..i], gaps[..i]) + gaps[i] + [pts[i]]
  {
    assert pts[..i + 1][..i] == pts[..i];
    assert gaps[..i + 1][..i] == gaps[..i];
  }

  /** The runs of the first k points total those of the first k - 1 plus run k - 1. */
  lemma SumLenPrefix<T>(gaps: seq<seq<T>>, k: nat)
    requires 1 <= k <= |gaps|
    ensures SumLen(gaps[..k]) == SumLen(gaps[..k - 1]) + |gaps[k - 1]|
  {
    assert gaps[..k][..k - 1] == gaps[..k - 1];
  }

  /** Runs that are pointwise no longer have no greater total length. */
  lemma {:induction false} SumLenMonotone<T>(gaps: seq<seq<T>>, more: seq<seq<T>>)
    requires |gaps| == |more|
    requires forall i :: 0 <= i < |gaps| ==> |gaps[i]| <= |more[i]|
    ensures SumLen(gaps) <= SumLen(more)
  {
    if gaps != [] {
      var n := |gaps| - 1;
      SumLenMonotone(gaps[..n], more[..n]);
    }
  }

  /** Every original point survives at its offset, in order, and exactly gaps[i] lies
      between pts[i-1] and pts[i]. */
  lemma {:induction false} SplicedKeepsPoints<T>(pts: seq<T>, gaps: seq<seq<T>>, i: nat)
    requires |gaps| == |pts| && i < |pts|
    ensures Offset(gaps, i) < |Spliced(pts, gaps)|
    ensures Spliced(pts, gaps)[Offset(gaps, i)] == pts[i]
    ensures Offset(gaps, i) >= |gaps[i]|
    ensures Spliced(pts, gaps)[Offset(gaps, i) - |gaps[i]| .. Offset(gaps, i)] == gaps[i]
    ensures i == 0 ==> Offset(gaps, i) == |gaps[0]|
    ensures i > 0 ==> Offset(gaps, i - 1) + 1 + |gaps[i]| == Offset(gaps, i)
  {
    var whole := Spliced(pts, gaps);
    SplicedPrefix(pts, gaps, i + 1);
    var head := Spliced(pts[..i + 1], gaps[..i + 1]);
    assert pts[..i + 1][..i] == pts[..i];
    assert gaps[..i + 1][..i] == gaps[..i];
    var before := Spliced(pts[..i], gaps[..i]);
    assert head == before + gaps[i] + [pts[i]];
    assert SumLen(gaps[..i + 1]) == SumLen(gaps[..i]) + |gaps[i]|;
    assert whole[..|head|] == head;
    assert whole[Offset(gaps, i)] == head[|head| - 1];
    assert whole[Offset(gaps, i) - |gaps[i]| .. Offset(gaps, i)] == head[|before| .. |before| + |gaps[i]|];
    if i > 0 {
      assert gaps[..i] == gaps[..i - 1 + 1];
    } else {
      assert gaps[..0] == [];
    }
  }

  /** The first and last points of a non-empty polyline stay where they are when no run
      precedes the first point. */
  lemma {:induction false} SplicedEnds<T>(pts: seq<T>, gaps: seq<seq<T>>)
    requires |gaps| == |pts| && |pts| > 0 && gaps[0] == []
    ensures Spliced(pts, gaps)[0] == pts[0]
    ensures Spliced(pts, gaps)[|Spliced(pts, gaps)| - 1] == pts[|pts| - 1]
  {
    SplicedKeepsPoints(pts, gaps, 0);
    assert gaps[..1] == [gaps[0]];
    assert SumLen(gaps[..1]) == SumLen(gaps[..0]) + |gaps[0]|;
    assert gaps[..0] == [];
  }

  /** When no run is emitted the polyline is unchanged. */
  lemma {:induction false} SplicedNothing<T>(pts: seq<T>, gaps: seq<seq<T>>)
    requires |gaps| == |pts|
    requires forall i :: 0 <= i < |gaps| ==> gaps[i] == []
    ensures Spliced(pts, gaps) == pts
  {
    if pts != [] {
      var n := |pts| - 1;
      SplicedNothing(pts[..n], gaps[..n]);
      assert pts[..n] + [pts[n]] == pts;
    }
  }

  /** Runs after the first one each of length at most c, and none before the first point:
      at most (|gaps| - 1) * c points are added. */
  lemma {:induction false} SumLenBound<T>(gaps: seq<seq<T>>, c: nat)
    requires |gaps| > 0 && gaps[0] == []
    requires forall i :: 1 <= i < |gaps| ==> |gaps[i]| <= c
    ensures SumLen(gaps) <= (|gaps| - 1) * c
  {
    var n := |gaps| - 1;
    if n > 0 {
      SumLenBound(gaps[..n], c);
      StepMul(n, c);
    }
  }

  /** Runs after the first one each of length exactly c: exactly (|gaps| - 1) * c points are added. */
  lemma {:induction false} SumLenExact<T>(gaps: seq<seq<T>>, c: nat)
    requires |gaps| > 0 && gaps[0] == []
    requires forall i :: 1 <= i < |gaps| ==> |gaps[i]| == c
    ensures SumLen(gaps) == (|gaps| - 1) * c
  {
    var n := |gaps| - 1;
    if n > 0 {
      SumLenExact(gaps[..n], c);
      StepMul(n, c);
    }
  }

  lemma StepMul(n: int, c: int)
    ensures (n - 1) * c + c == n * c
  {}
}
