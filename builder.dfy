/** build_fractal: the whole fractal of a pattern, at a given depth or at the default depth. */
module Builder {
  import opened Geometry
  import opened Substitution
  import opened Polyline

  /** Edges of the pattern at least this long (squared) are never substituted: 0.9 times
      the squared distance between the pattern's anchors. */
  function MaxLen(pattern: seq<Point>): real
    requires |pattern| >= 2
  {
    0.9 * Dist2(pattern[0], Last(pattern))
  }

  /** No edge of the pattern passes the gate. */
  predicate NoneGated(pattern: seq<Point>, maxLen: real) {
    forall i :: 1 <= i < |pattern| ==> !Gated(pattern, maxLen, i)
  }

  /** The run build_fractal emits before pattern[i]: the substitution of edge i, one level
      shallower, when the edge passes the gate. */
  function Gap(pattern: seq<Point>, iterations: int, i: nat): seq<Point>
    requires 2 <= |pattern| && i < |pattern|
    requires iterations >= 1 || NoneGated(pattern, MaxLen(pattern))
  {
    if i > 0 && Gated(pattern, MaxLen(pattern), i)
    then SplitPoints(pattern[i - 1], pattern[i], pattern, iterations - 1, MaxLen(pattern))
    else []
  }

  function FractalGaps(pattern: seq<Point>, iterations: int): (gaps: seq<seq<Point>>)
    requires |pattern| >= 2
    requires iterations >= 1 || NoneGated(pattern, MaxLen(pattern))
    ensures |gaps| == |pattern| && gaps[0] == []
    ensures forall i :: 0 <= i < |pattern| ==> gaps[i] == Gap(pattern, iterations, i)
  {
    seq(|pattern|, i requires 0 <= i < |pattern| => Gap(pattern, iterations, i))
  }

  /** build_fractal(pattern, iterations) */
  function Fractal(pattern: seq<Point>, iterations: int): seq<Point>
    requires |pattern| < 2 || iterations >= 1 || NoneGated(pattern, MaxLen(pattern))
  {
    if |pattern| < 2 then [] else Spliced(pattern, FractalGaps(pattern, iterations))
  }

  method BuildFractal(pattern: seq<Point>, iterations: int) returns (result: seq<Point>)
    requires |pattern| < 2 || iterations >= 1 || NoneGated(pattern, MaxLen(pattern))
    ensures result == Fractal(pattern, iterations)
  {
    if |pattern| < 2 {
      return [];
    }
    var maxLen := 0.9 * Dist2(pattern[0], pattern[|pattern| - 1]);
    ghost var gaps := FractalGaps(pattern, iterations);
    result := [];
    var i := 0;
    while i < |pattern|
      invariant 0 <= i <= |pattern|
      invariant result == Spliced(pattern[..i], gaps[..i])
    {
      ghost var before := result;
      result := BuildStep(pattern, iterations, maxLen, i, result);
      SplicedStep(pattern, gaps, i);
      assert result == Spliced(pattern[..i + 1], gaps[..i + 1]);
      i := i + 1;
    }
    assert pattern[..i] == pattern && gaps[..i] == gaps;
  }

  /** One pass of build_fractal's loop: the split of the gated edge ending at pattern[i],
      then pattern[i] itself. */
  method BuildStep(pattern: seq<Point>, iterations: int, maxLen: real, i: nat, result: seq<Point>)
    returns (out: seq<Point>)
    requires 2 <= |pattern| && i < |pattern|
    requires iterations >= 1 || NoneGated(pattern, MaxLen(pattern))
    requires maxLen == 0.9 * Dist2(pattern[0], pattern[|pattern| - 1])
    ensures out == result + Gap(pattern, iterations, i) + [pattern[i]]
  {
    assert maxLen == MaxLen(pattern);
    out := result;
    if i > 0 && Dist2(pattern[i - 1], pattern[i]) < maxLen {
      assert Gated(pattern, maxLen, i);
      out := Split(pattern[i - 1], pattern[i], pattern, iterations - 1, maxLen, out);
    }
    out := out + [pattern[i]];
  }

  // ---------------------------------------------------------------------------
  // Properties of the fractal

  /** A pattern of fewer than two points has an empty fractal; otherwise the fractal starts
      and ends at the pattern's anchors. */
  lemma {:induction false} FractalEnds(pattern: seq<Point>, iterations: int)
    requires |pattern| < 2 || iterations >= 1 || NoneGated(pattern, MaxLen(pattern))
    ensures |pattern| < 2 ==> Fractal(pattern, iterations) == []
    ensures |pattern| >= 2 ==>
              |Fractal(pattern, iterations)| >= |pattern|
              && Fractal(pattern, iterations)[0] == pattern[0]
              && Fractal(pattern, iterations)[|Fractal(pattern, iterations)| - 1] == Last(pattern)
  {
    if |pattern| >= 2 {
      SplicedEnds(pattern, FractalGaps(pattern, iterations));
    }
  }

  /** Every pattern point appears in the fractal, in order, with exactly the substitution
      of edge i between pattern[i-1] and pattern[i]. */
  lemma {:induction false} FractalKeepsPattern(pattern: seq<Point>, iterations: int, i: nat)
    requires |pattern| >= 2 && i < |pattern|
    requires iterations >= 1 || NoneGated(pattern, MaxLen(pattern))
    ensures Offset(FractalGaps(pattern, iterations), i) < |Fractal(pattern, iterations)|
    ensures Fractal(pattern, iterations)[Offset(FractalGaps(pattern, iterations), i)] == pattern[i]
    ensures Offset(FractalGaps(pattern, iterations), i) >= |Gap(pattern, iterations, i)|
    ensures Fractal(pattern, iterations)[Offset(FractalGaps(pattern, iterations), i) - |Gap(pattern, iterations, i)|
                                         .. Offset(FractalGaps(pattern, iterations), i)]
            == Gap(pattern, iterations, i)
    ensures i > 0 ==> Offset(FractalGaps(pattern, iterations), i - 1) + 1 + |Gap(pattern, iterations, i)|
                      == Offset(FractalGaps(pattern, iterations), i)
  {
    var gaps := FractalGaps(pattern, iterations);
    assert Fractal(pattern, iterations) == Spliced(pattern, gaps);
    SplicedKeepsPoints(pattern, gaps, i);
  }

  /** Edges that fail the gate are kept as they are: nothing is inserted between their ends. */
  lemma {:induction false} UngatedEdgeKept(pattern: seq<Point>, iterations: int, i: nat)
    requires |pattern| >= 2 && 1 <= i < |pattern|
    requires iterations >= 1 || NoneGated(pattern, MaxLen(pattern))
    requires !Gated(pattern, MaxLen(pattern), i)
    ensures var f, gaps := Fractal(pattern, iterations), FractalGaps(pattern, iterations);
            Offset(gaps, i - 1) + 1 == Offset(gaps, i) && Offset(gaps, i) < |f|
            && f[Offset(gaps, i - 1)] == pattern[i - 1] && f[Offset(gaps, i)] == pattern[i]
  {
    var gaps := FractalGaps(pattern, iterations);
    SplicedKeepsPoints(pattern, gaps, i);
    SplicedKeepsPoints(pattern, gaps, i - 1);
  }

  lemma SizeArith(n: int, p: int)
    ensures n + (n - 1) * (p - 1) == (n - 1) * p + 1
  {}

  /** The fractal has at most (n-1)^iterations + 1 points, the number reserved for it. */
  lemma {:induction false} FractalSizeBound(pattern: seq<Point>, iterations: int)
    requires |pattern| >= 2 && iterations >= 1
    ensures |Fractal(pattern, iterations)| <= Pow(|pattern| - 1, iterations) + 1
  {
    var n := |pattern|;
    var gaps := FractalGaps(pattern, iterations);
    var p := Pow(n - 1, iterations - 1);
    PowPositive(n - 1, iterations - 1);
    assert forall i :: 1 <= i < n ==> |gaps[i]| <= p - 1;
    SumLenBound(gaps, p - 1);
    SizeArith(n, p);
  }

  /** When every edge passes the gate and the anchors are apart, the fractal has exactly
      (n-1)^iterations segments. */
  lemma {:induction false} FractalSizeExact(pattern: seq<Point>, iterations: int)
    requires |pattern| >= 2 && iterations >= 1
    requires Proper(pattern) && AllGated(pattern, MaxLen(pattern))
    ensures |Fractal(pattern, iterations)| == Pow(|pattern| - 1, iterations) + 1
  {
    var n := |pattern|;
    var maxLen := MaxLen(pattern);
    var gaps := FractalGaps(pattern, iterations);
    var p := Pow(n - 1, iterations - 1);
    PowPositive(n - 1, iterations - 1);
    forall i | 1 <= i < n
      ensures |gaps[i]| == p - 1
    {
      SplitCount(pattern[i - 1], pattern[i], pattern, iterations - 1, maxLen);
    }
    SumLenExact(gaps, p - 1);
    SizeArith(n, p);
  }

  /** A deeper fractal never has fewer points: build_fractal's size is non-decreasing in depth. */
  lemma {:induction false} FractalSizeMonotone(pattern: seq<Point>, iterations: int)
    requires |pattern| >= 2 && iterations >= 1
    ensures |Fractal(pattern, iterations)| <= |Fractal(pattern, iterations + 1)|
  {
    var gaps, more := FractalGaps(pattern, iterations), FractalGaps(pattern, iterations + 1);
    forall i | 0 <= i < |pattern|
      ensures |gaps[i]| <= |more[i]|
    {
      if i > 0 && Gated(pattern, MaxLen(pattern), i) {
        SplitDeeper(pattern[i - 1], pattern[i], pattern, iterations - 1, MaxLen(pattern));
      }
    }
    SumLenMonotone(gaps, more);
  }

  /** A pattern of two points is its own fractal at every depth: its single edge is the
      anchor segment itself and never passes the gate. */
  lemma {:induction false} TwoPointFractal(pattern: seq<Point>, iterations: int)
    requires |pattern| == 2
    ensures NoneGated(pattern, MaxLen(pattern))
    ensures Fractal(pattern, iterations) == pattern
  {
    var gaps := FractalGaps(pattern, iterations);
    assert !Gated(pattern, MaxLen(pattern), 1);
    assert gaps[1] == [];
    SplicedNothing(pattern, gaps);
  }

  // ---------------------------------------------------------------------------
  // The default depth

  /** pattern.size() - 1 as the unsigned size_t it is in the source: 0 - 1 wraps to 2^64 - 1. */
  function Base(n: nat): nat {
    if n == 0 then 0xFFFF_FFFF_FFFF_FFFF else n - 1
  }

  lemma PowStep(b: nat, e: nat)
    requires b >= 2
    ensures Pow(b, e + 1) >= 2 * Pow(b, e)
  {}

  /** The least depth d >= it with b^d >= 2000, given b^j < 2000 for 1 <= j < it. */
  function LeastDepthFrom(b: nat, it: nat): (d: nat)
    requires b >= 2 && it >= 1
    requires forall j :: 1 <= j < it ==> Pow(b, j) < 2000
    ensures d >= it && Pow(b, d) >= 2000
    ensures forall j :: 1 <= j < d ==> Pow(b, j) < 2000
    decreases 2000 - Pow(b, it)
  {
    if Pow(b, it) >= 2000 then it
    else
      PowPositive(b, it);
      PowStep(b, it);
      LeastDepthFrom(b, it + 1)
  }

  /** The depth build_fractal(pattern) uses for a pattern of n points: the least depth
      at which (n-1)^depth reaches 2000, and depth 1 when n - 1 < 2 (the corrected loop,
      see DefaultLoopNeverExits). */
  function DefaultDepth(n: nat): (d: nat)
    ensures d >= 1
    ensures Base(n) >= 2 ==> Pow(Base(n), d) >= 2000 && forall j :: 1 <= j < d ==> Pow(Base(n), j) < 2000
    ensures Base(n) < 2 ==> d == 1
  {
    if Base(n) < 2 then 1 else LeastDepthFrom(Base(n), 1)
  }

  /** The depth loop of build_fractal(pattern) as written; it terminates only for n = 0
      and n >= 3. */
  method DefaultIterationsAsWritten(n: nat) returns (iterations: int)
    requires Base(n) >= 2
    ensures iterations == DefaultDepth(n)
  {
    iterations := 1;
    while Pow(Base(n), iterations) < 2000
      invariant iterations >= 1
      invariant forall j :: 1 <= j < iterations ==> Pow(Base(n), j) < 2000
      decreases 2000 - Pow(Base(n), iterations)
    {
      PowPositive(Base(n), iterations);
      PowStep(Base(n), iterations);
      iterations := iterations + 1;
    }
    DepthUnique(Base(n), iterations, DefaultDepth(n));
  }

  /** Two depths that both satisfy "least depth >= 1 reaching 2000" are equal. */
  lemma DepthUnique(b: nat, d: nat, e: nat)
    requires d >= 1 && e >= 1
    requires Pow(b, d) >= 2000 && forall j :: 1 <= j < d ==> Pow(b, j) < 2000
    requires Pow(b, e) >= 2000 && forall j :: 1 <= j < e ==> Pow(b, j) < 2000
    ensures d == e
  {
  }

  lemma {:induction false} PowAtMostOne(b: nat, e: nat)
    requires b <= 1
    ensures Pow(b, e) <= 1
  {
    if e > 0 {
      PowAtMostOne(b, e - 1);
    }
  }

  /** For a pattern of one or two points the loop's guard (n-1)^iterations < 2000 holds at
      every depth: build_fractal(pattern) never returns. */
  lemma DefaultLoopNeverExits(n: nat)
    requires n == 1 || n == 2
    ensures forall it: nat :: Pow(Base(n), it) < 2000
  {
    forall it: nat
      ensures Pow(Base(n), it) < 2000
    {
      PowAtMostOne(Base(n), it);
    }
  }

  /** The fractal of a pattern with fewer than three points does not depend on the depth,
      so stopping the loop at depth 1 for them changes no result. */
  lemma {:induction false} ShortPatternIgnoresDepth(pattern: seq<Point>, it: int)
    requires |pattern| <= 2
    ensures |pattern| < 2 || NoneGated(pattern, MaxLen(pattern))
    ensures Fractal(pattern, it) == Fractal(pattern, 1)
  {
    if |pattern| == 2 {
      TwoPointFractal(pattern, it);
      TwoPointFractal(pattern, 1);
    }
  }

  /** The corrected depth loop: for n - 1 < 2 it stops at once. */
  method DefaultIterations(n: nat) returns (iterations: int)
    ensures iterations == DefaultDepth(n)
  {
    if Base(n) < 2 {
      return 1;
    }
    iterations := DefaultIterationsAsWritten(n);
  }

  /** build_fractal(pattern) with the corrected depth loop. */
  method BuildFractalDefault(pattern: seq<Point>) returns (result: seq<Point>)
    ensures result == Fractal(pattern, DefaultDepth(|pattern|))
  {
    var iterations := DefaultIterations(|pattern|);
    result := BuildFractal(pattern, iterations);
  }

  // ---------------------------------------------------------------------------
  // The initial pattern

  function SeedPattern(): seq<Point> {
    [Point(80.0, 600.0), Point(400.0, 600.0), Point(900.0, 400.0), Point(1400.0, 600.0), Point(1720.0, 600.0)]
  }

  /** The program starts with a five-point pattern whose four edges all pass the gate:
      its default depth is 6 and its fractal has 4^6 + 1 = 4097 points. */
  lemma SeedFractalSize()
    ensures DefaultDepth(|SeedPattern()|) == 6
    ensures |Fractal(SeedPattern(), 6)| == 4097
  {
    var s := SeedPattern();
    assert Pow(4, 5) == 1024 && Pow(4, 6) == 4096;
    DepthUnique(4, DefaultDepth(5), 6);
    assert Proper(s) by {
      assert Abs2(Sub(Last(s), s[0])) == 2689600.0;
    }
    assert MaxLen(s) == 2420640.0;
    assert Dist2(s[0], s[1]) == 102400.0;
    assert Dist2(s[1], s[2]) == 290000.0;
    assert Dist2(s[2], s[3]) == 290000.0;
    assert Dist2(s[3], s[4]) == 102400.0;
    assert AllGated(s, MaxLen(s));
    FractalSizeExact(s, 6);
  }
}
