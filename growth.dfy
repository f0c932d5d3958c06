/** Growing an existing fractal one level at a time: split_largest substitutes the pattern
    into the longest segment, split_largest_2 into every segment close to the longest. */
module Growth {
  import opened Geometry
  import opened Substitution
  import opened Polyline

  /** The gate both growth steps pass to split: 1e10, so every pattern edge of the drawing
      area passes it. */
  const SplitLimit: real := 10000000000.0

  /** split_largest_2 leaves the fractal alone when it would grow beyond this many points. */
  const MaxPoints: int := 500000

  /** Squared length of the fractal's segment i, from f[i-1] to f[i]. */
  function Seg(f: seq<Point>, i: int): real
    requires 1 <= i < |f|
  {
    Dist2(f[i], f[i - 1])
  }

  /** Every segment has length zero. */
  predicate Flat(f: seq<Point>) {
    forall i :: 1 <= i < |f| ==> Seg(f, i) == 0.0
  }

  /** The largest squared segment length among segments 1 .. k-1, or 0 when there is none. */
  function MaxSeg(f: seq<Point>, k: nat): (m: real)
    requires k <= |f|
    ensures m >= 0.0
    ensures forall i :: 1 <= i < k ==> Seg(f, i) <= m
    ensures m == 0.0 || exists i :: 1 <= i < k && Seg(f, i) == m
  {
    if k <= 1 then 0.0
    else
      var m := MaxSeg(f, k - 1);
      if Seg(f, k - 1) > m then Seg(f, k - 1) else m
  }

  /** The index split_largest picks among segments 1 .. k-1: the first longest segment,
      or 0 when every segment has length zero. */
  function LongestIndex(f: seq<Point>, k: nat): (j: nat)
    requires k <= |f|
    ensures j == 0 ==> forall i :: 1 <= i < k ==> Seg(f, i) == 0.0
    ensures j != 0 ==> 1 <= j < k && Seg(f, j) > 0.0 && Seg(f, j) == MaxSeg(f, k)
    ensures j != 0 ==> forall i :: 1 <= i < j ==> Seg(f, i) < Seg(f, j)
  {
    if k <= 1 then 0
    else if Seg(f, k - 1) > MaxSeg(f, k - 1) then k - 1
    else LongestIndex(f, k - 1)
  }

  /** split_largest(fractal, part, pattern): the first longest segment f[k-1]-f[k] is
      replaced by one level of the pattern; part receives the inserted points. */
  method SplitLargest(f: seq<Point>, pattern: seq<Point>) returns (grown: seq<Point>, part: seq<Point>)
    requires |pattern| >= 2
    requires !Flat(f)
    ensures var k := LongestIndex(f, |f|);
            1 <= k < |f|
            && part == SplitPoints(f[k - 1], f[k], pattern, 1, SplitLimit)
            && grown == f[..k] + part + f[k..]
    ensures |part| <= |pattern| - 2
  {
    var maxI := FirstLongest(f);
    LongestIndexIsLongest(f);
    part := Split(f[maxI - 1], f[maxI], pattern, 1, SplitLimit, []);
    assert |part| <= Pow(|pattern| - 1, 1) - 1;
    grown := f[..maxI] + part + f[maxI..];
  }

  /** The first loop of split_largest: the index of the first strictly longest segment. */
  method FirstLongest(f: seq<Point>) returns (maxI: nat)
    ensures maxI == LongestIndex(f, |f|)
  {
    var max := 0.0;
    maxI := 0;
    var i := 1;
    if |f| == 0 {
      return;
    }
    while i < |f|
      invariant 1 <= i <= |f|
      invariant max == MaxSeg(f, i) && maxI == LongestIndex(f, i)
    {
      var l := Dist2(f[i], f[i - 1]);
      assert l == Seg(f, i);
      if l > max {
        max, maxI := l, i;
      }
      assert max == MaxSeg(f, i + 1) && maxI == LongestIndex(f, i + 1);
      i := i + 1;
    }
  }

  /** The segment split_largest replaces is a longest one, and every earlier segment is
      strictly shorter. */
  lemma {:induction false} LongestIndexIsLongest(f: seq<Point>)
    requires !Flat(f)
    ensures var k := LongestIndex(f, |f|);
            1 <= k < |f| && (forall i :: 1 <= i < |f| ==> Seg(f, i) <= Seg(f, k))
            && (forall i :: 1 <= i < k ==> Seg(f, i) < Seg(f, k))
  {
    var i :| 1 <= i < |f| && Seg(f, i) != 0.0;
    assert LongestIndex(f, |f|) != 0;
  }

  // ---------------------------------------------------------------------------
  // split_largest_2

  /** Segments longer than this (squared) are substituted: 0.9 times the longest. */
  function Threshold(f: seq<Point>): (t: real)
    ensures t >= 0.0
  {
    0.9 * MaxSeg(f, |f|)
  }

  predicate Selected(f: seq<Point>, i: int)
    requires 1 <= i < |f|
  {
    Seg(f, i) > Threshold(f)
  }

  /** The number of selected segments among 1 .. k-1. */
  function SelectedCount(f: seq<Point>, k: nat): (c: nat)
    requires k <= |f|
    ensures c <= k
    ensures k >= 1 ==> c <= k - 1
  {
    if k <= 1 then 0 else SelectedCount(f, k - 1) + (if Selected(f, k - 1) then 1 else 0)
  }

  /** The size split_largest_2 computes before growing: every selected segment is counted
      as gaining |pattern| - 2 points. */
  function Capacity(f: seq<Point>, pattern: seq<Point>): int {
    |f| + SelectedCount(f, |f|) * (|pattern| - 2)
  }

  /** What split_largest_2 emits before f[i]. */
  function GrowthGap(f: seq<Point>, pattern: seq<Point>, i: nat): seq<Point>
    requires i < |f|
    requires |pattern| >= 1 || Flat(f)
  {
    if i > 0 && Selected(f, i) then SplitPoints(f[i - 1], f[i], pattern, 1, SplitLimit) else []
  }

  function GrowthGaps(f: seq<Point>, pattern: seq<Point>): (gaps: seq<seq<Point>>)
    requires |pattern| >= 1 || Flat(f)
    ensures |gaps| == |f|
    ensures forall i :: 0 <= i < |f| ==> gaps[i] == GrowthGap(f, pattern, i)
  {
    seq(|f|, i requires 0 <= i < |f| => GrowthGap(f, pattern, i))
  }

  /** The fractal after split_largest_2. */
  function Grown(f: seq<Point>, pattern: seq<Point>): seq<Point>
    requires |pattern| >= 1 || Flat(f)
  {
    if Capacity(f, pattern) > MaxPoints then f else Spliced(f, GrowthGaps(f, pattern))
  }

  lemma CountStep(s: int, c: int)
    ensures (s + 1) * c == s * c + c
  {}

  /** The first loop of split_largest_2: the longest squared segment length. */
  method LongestSquared(f: seq<Point>) returns (max: real)
    ensures max == MaxSeg(f, |f|)
  {
    max := 0.0;
    if |f| == 0 {
      return;
    }
    var i := 1;
    while i < |f|
      invariant 1 <= i <= |f|
      invariant max == MaxSeg(f, i)
    {
      var l := Dist2(f[i], f[i - 1]);
      if l > max {
        max := l;
      }
      i := i + 1;
    }
  }

  /** The second loop of split_largest_2: the size reserved for the grown polyline. */
  method CountCapacity(f: seq<Point>, pattern: seq<Point>, max: real) returns (capacity: int)
    requires max == Threshold(f)
    ensures capacity == Capacity(f, pattern)
  {
    capacity := |f|;
    if |f| == 0 {
      return;
    }
    var i := 1;
    while i < |f|
      invariant 1 <= i <= |f|
      invariant capacity == |f| + SelectedCount(f, i) * (|pattern| - 2)
    {
      var l := Dist2(f[i], f[i - 1]);
      CountStep(SelectedCount(f, i), |pattern| - 2);
      if l > max {
        capacity := capacity + (|pattern| - 2);
      }
      i := i + 1;
    }
  }

  /** The third loop of split_largest_2: every selected segment gets one level of the pattern. */
  method SubstituteSelected(f: seq<Point>, pattern: seq<Point>, max: real) returns (part: seq<Point>)
    requires |pattern| >= 1 || Flat(f)
    requires max == Threshold(f)
    ensures part == Spliced(f, GrowthGaps(f, pattern))
  {
    ghost var gaps := GrowthGaps(f, pattern);
    part := [];
    var i := 0;
    while i < |f|
      invariant 0 <= i <= |f|
      invariant part == Spliced(f[..i], gaps[..i])
    {
      var before := part;
      if i > 0 {
        var l := Dist2(f[i], f[i - 1]);
        if l > max {
          assert Seg(f, i) > 0.0;
          assert !Flat(f);
          part := Split(f[i - 1], f[i], pattern, 1, SplitLimit, part);
        }
      }
      part := part + [f[i]];
      assert part == before + GrowthGap(f, pattern, i) + [f[i]];
      assert f[..i + 1][..i] == f[..i];
      assert gaps[..i + 1][..i] == gaps[..i];
      i := i + 1;
    }
    assert f[..i] == f && gaps[..i] == gaps;
  }

  /** split_largest_2(fractal, pattern) */
  method SplitLargest2(f: seq<Point>, pattern: seq<Point>) returns (r: seq<Point>)
    requires |pattern| >= 1 || Flat(f)
    ensures r == Grown(f, pattern)
  {
    var max := LongestSquared(f);
    max := max * 0.9;
    var capacity := CountCapacity(f, pattern, max);
    if capacity > MaxPoints {
      return f;
    }
    r := SubstituteSelected(f, pattern, max);
  }

  // ---------------------------------------------------------------------------
  // Properties of split_largest_2

  /** The longest segment is always among those substituted. */
  lemma {:induction false} LongestSelected(f: seq<Point>)
    requires !Flat(f)
    ensures 1 <= LongestIndex(f, |f|) < |f| && Selected(f, LongestIndex(f, |f|))
  {
    LongestIndexIsLongest(f);
  }

  /** A polyline whose segments all have length zero is left unchanged. */
  lemma {:induction false} FlatUnchanged(f: seq<Point>, pattern: seq<Point>)
    requires Flat(f)
    ensures Grown(f, pattern) == f
  {
    var gaps := GrowthGaps(f, pattern);
    forall i | 0 <= i < |f|
      ensures gaps[i] == []
    {
      if i > 0 {
        assert Seg(f, i) == 0.0;
      }
    }
    SplicedNothing(f, gaps);
  }

  /** Growth keeps every point of the polyline, in order, and its ends; right before f[i]
      stands exactly what was emitted for segment i, and nothing else lies between f[i-1]
      and f[i]. */
  lemma {:induction false} GrowthKeepsPoints(f: seq<Point>, pattern: seq<Point>, i: nat)
    requires |pattern| >= 1 || Flat(f)
    requires i < |f|
    ensures |Grown(f, pattern)| >= |f|
    ensures Grown(f, pattern)[0] == f[0] && Grown(f, pattern)[|Grown(f, pattern)| - 1] == f[|f| - 1]
    ensures Capacity(f, pattern) <= MaxPoints ==>
              Offset(GrowthGaps(f, pattern), i) < |Grown(f, pattern)|
              && Grown(f, pattern)[Offset(GrowthGaps(f, pattern), i)] == f[i]
    ensures Capacity(f, pattern) <= MaxPoints ==>
              Offset(GrowthGaps(f, pattern), i) >= |GrowthGap(f, pattern, i)|
              && Grown(f, pattern)[Offset(GrowthGaps(f, pattern), i) - |GrowthGap(f, pattern, i)|
                                   .. Offset(GrowthGaps(f, pattern), i)]
                 == GrowthGap(f, pattern, i)
    ensures Capacity(f, pattern) <= MaxPoints && i > 0 ==>
              Offset(GrowthGaps(f, pattern), i - 1) + 1 + |GrowthGap(f, pattern, i)|
              == Offset(GrowthGaps(f, pattern), i)
  {
    if Capacity(f, pattern) <= MaxPoints {
      var gaps := GrowthGaps(f, pattern);
      SplicedEnds(f, gaps);
      SplicedKeepsPoints(f, gaps, i);
    }
  }

  /** Nothing is inserted into a segment that is not selected. */
  lemma {:induction false} UnselectedSegmentKept(f: seq<Point>, pattern: seq<Point>, i: nat)
    requires |pattern| >= 1 || Flat(f)
    requires 1 <= i < |f| && !Selected(f, i)
    requires Capacity(f, pattern) <= MaxPoints
    ensures Offset(GrowthGaps(f, pattern), i - 1) + 1 == Offset(GrowthGaps(f, pattern), i)
    ensures Offset(GrowthGaps(f, pattern), i) < |Grown(f, pattern)|
    ensures Grown(f, pattern)[Offset(GrowthGaps(f, pattern), i - 1)] == f[i - 1]
    ensures Grown(f, pattern)[Offset(GrowthGaps(f, pattern), i)] == f[i]
  {
    var gaps := GrowthGaps(f, pattern);
    SplicedKeepsPoints(f, gaps, i);
    SplicedKeepsPoints(f, gaps, i - 1);
  }

  /** Each selected segment gains at most |pattern| - 2 points. */
  lemma BoundStep(prev: int, gap: int, c: int, sel: bool, m: int, next: int, total: int)
    requires prev <= c * m && gap <= (if sel then m else 0) && next == prev + gap
    requires total == c + (if sel then 1 else 0)
    ensures next <= total * m
  {
    CountStep(c, m);
  }

  /** A selected segment gains at most |pattern| - 2 points, an unselected one none. */
  lemma GapBound(f: seq<Point>, pattern: seq<Point>, i: nat)
    requires |pattern| >= 2 && i < |f|
    ensures |GrowthGap(f, pattern, i)| <= if i > 0 && Selected(f, i) then |pattern| - 2 else 0
  {
    if i > 0 && Selected(f, i) {
      assert Pow(|pattern| - 1, 1) == |pattern| - 1;
    }
  }

  lemma {:induction false} GapsBound(f: seq<Point>, pattern: seq<Point>, k: nat)
    requires |pattern| >= 2 && k <= |f|
    ensures SumLen(GrowthGaps(f, pattern)[..k]) <= SelectedCount(f, k) * (|pattern| - 2)
  {
    var gaps := GrowthGaps(f, pattern);
    if k > 1 {
      GapsBound(f, pattern, k - 1);
      SumLenPrefix(gaps, k);
      GapBound(f, pattern, k - 1);
      BoundStep(SumLen(gaps[..k - 1]), |gaps[k - 1]|, SelectedCount(f, k - 1), Selected(f, k - 1),
                |pattern| - 2, SumLen(gaps[..k]), SelectedCount(f, k));
    } else if k == 1 {
      SumLenPrefix(gaps, 1);
    }
  }

  /** With all pattern edges gated, each selected segment gains exactly |pattern| - 2 points. */
  lemma {:induction false} GapsExact(f: seq<Point>, pattern: seq<Point>, k: nat)
    requires |pattern| >= 2 && k <= |f|
    requires Proper(pattern) && AllGated(pattern, SplitLimit)
    ensures SumLen(GrowthGaps(f, pattern)[..k]) == SelectedCount(f, k) * (|pattern| - 2)
  {
    var gaps := GrowthGaps(f, pattern);
    if k > 1 {
      GapsExact(f, pattern, k - 1);
      SumLenPrefix(gaps, k);
      CountStep(SelectedCount(f, k - 1), |pattern| - 2);
      if Selected(f, k - 1) {
        SplitCount(f[k - 2], f[k - 1], pattern, 1, SplitLimit);
      }
    } else if k == 1 {
      SumLenPrefix(gaps, 1);
    }
  }

  /** The capacity split_largest_2 reserves is enough: the grown polyline never exceeds it,
      and so never exceeds 500000 points unless it is returned unchanged. */
  lemma {:induction false} GrowthWithinCapacity(f: seq<Point>, pattern: seq<Point>)
    requires |pattern| >= 2
    ensures Capacity(f, pattern) <= MaxPoints ==> |Grown(f, pattern)| <= Capacity(f, pattern)
    ensures Grown(f, pattern) == f || |Grown(f, pattern)| <= MaxPoints
  {
    GapsBound(f, pattern, |f|);
    assert GrowthGaps(f, pattern)[..|f|] == GrowthGaps(f, pattern);
  }

  /** With all pattern edges gated and the pattern's anchors apart, the reservation is exact. */
  lemma {:induction false} GrowthFillsCapacity(f: seq<Point>, pattern: seq<Point>)
    requires |pattern| >= 2 && Proper(pattern) && AllGated(pattern, SplitLimit)
    requires Capacity(f, pattern) <= MaxPoints
    ensures |Grown(f, pattern)| == Capacity(f, pattern)
  {
    GapsExact(f, pattern, |f|);
    assert GrowthGaps(f, pattern)[..|f|] == GrowthGaps(f, pattern);
  }
}
