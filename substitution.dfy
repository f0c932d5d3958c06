/** Pattern substitution: `split` replaces the segment p0-p1 by a similarity-transformed
    copy of the pattern, recursively, and appends the interior points it creates. */
module Substitution {
  import opened Geometry

  /** Anchors closer than this (squared) define no transform: 1e-15. */
  const Eps: real := 0.000000000000001

  function Pow(b: nat, e: nat): nat {
    if e == 0 then 1 else b * Pow(b, e - 1)
  }

  lemma {:induction false} PowPositive(b: nat, e: nat)
    requires b >= 1
    ensures Pow(b, e) >= 1
  {
    if e > 0 {
      PowPositive(b, e - 1);
      ProductAtLeast(b, Pow(b, e - 1));
    }
  }

  lemma ProductAtLeast(a: nat, c: nat)
    requires a >= 1 && c >= 1
    ensures a * c >= 1
  {}

  lemma OneMore(k: int, p: int)
    ensures (k - 2) * p + p == (k - 1) * p
  {}

  function Last(s: seq<Point>): Point
    requires |s| > 0
  {
    s[|s| - 1]
  }

  /** The pattern's anchors (first and last points) are far enough apart to map them onto a segment. */
  predicate Proper(pattern: seq<Point>) {
    |pattern| > 0 && Abs2(Sub(Last(pattern), pattern[0])) >= Eps
  }

  /** Edge i of the pattern (from pattern[i-1] to pattern[i]) is short enough to be substituted. */
  predicate Gated(pattern: seq<Point>, maxLen: real, i: int)
    requires 1 <= i < |pattern|
  {
    Dist2(pattern[i - 1], pattern[i]) < maxLen
  }

  // ---------------------------------------------------------------------------
  // The similarity transform a -> p0, b -> p1

  /** Coordinates of q in the frame (a; b - a, rotate(b - a)), divided by |b - a|^2. */
  function CoordX(a: Point, b: Point, q: Point): real
    requires Abs2(Sub(b, a)) != 0.0
  {
    Dot(Sub(q, a), Sub(b, a)) * (1.0 / Abs2(Sub(b, a)))
  }

  function CoordY(a: Point, b: Point, q: Point): real
    requires Abs2(Sub(b, a)) != 0.0
  {
    Dot(Sub(q, a), Rotate(Sub(b, a))) * (1.0 / Abs2(Sub(b, a)))
  }

  /** The point with coordinates (x, y) in the frame (p0; p1 - p0, rotate(p1 - p0)). */
  function Place(p0: Point, p1: Point, x: real, y: real): Point {
    Add(Add(p0, Scale(x, Sub(p1, p0))), Scale(y, Rotate(Sub(p1, p0))))
  }

  /** The transform of `split`: rotation, uniform scaling and translation sending a to p0 and b to p1. */
  function Transform(a: Point, b: Point, p0: Point, p1: Point, q: Point): Point
    requires Abs2(Sub(b, a)) != 0.0
  {
    Place(p0, p1, CoordX(a, b, q), CoordY(a, b, q))
  }

  lemma CoordsOfFirstAnchor(a: Point, b: Point)
    requires Abs2(Sub(b, a)) != 0.0
    ensures CoordX(a, b, a) == 0.0 && CoordY(a, b, a) == 0.0
  {
    assert Sub(a, a) == Point(0.0, 0.0);
    var r := 1.0 / Abs2(Sub(b, a));
    TimesZero(Sub(b, a).x);
    TimesZero(Sub(b, a).y);
    TimesZero(Rotate(Sub(b, a)).x);
    TimesZero(Rotate(Sub(b, a)).y);
    TimesZero(r);
  }

  lemma CoordsOfLastAnchor(a: Point, b: Point)
    requires Abs2(Sub(b, a)) != 0.0
    ensures CoordX(a, b, b) == 1.0 && CoordY(a, b, b) == 0.0
  {
    var l := Abs2(Sub(b, a));
    assert Dot(Sub(b, a), Sub(b, a)) == l;
    assert Dot(Sub(b, a), Rotate(Sub(b, a))) == 0.0;
    TimesZero(1.0 / l);
  }

  lemma PlaceAtOrigin(p0: Point, p1: Point)
    ensures Place(p0, p1, 0.0, 0.0) == p0
  {
    TimesZero(Sub(p1, p0).x);
    TimesZero(Sub(p1, p0).y);
    TimesZero(Rotate(Sub(p1, p0)).x);
    TimesZero(Rotate(Sub(p1, p0)).y);
  }

  lemma PlaceAtUnit(p0: Point, p1: Point)
    ensures Place(p0, p1, 1.0, 0.0) == p1
  {
    TimesZero(Rotate(Sub(p1, p0)).x);
    TimesZero(Rotate(Sub(p1, p0)).y);
  }

  /** The transform sends the pattern's first point to p0 and its last point to p1. */
  lemma {:induction false} TransformFixesAnchors(a: Point, b: Point, p0: Point, p1: Point)
    requires Abs2(Sub(b, a)) != 0.0
    ensures Transform(a, b, p0, p1, a) == p0
    ensures Transform(a, b, p0, p1, b) == p1
  {
    CoordsOfFirstAnchor(a, b);
    PlaceAtOrigin(p0, p1);
    CoordsOfLastAnchor(a, b);
    PlaceAtUnit(p0, p1);
  }

  // ---------------------------------------------------------------------------
  // The transform preserves shape

  /** The difference of two placed points, in the frame spanned by p1 - p0 and its rotation. */
  lemma PlaceDifference(p0: Point, p1: Point, x1: real, y1: real, x2: real, y2: real)
    ensures Sub(Place(p0, p1, x1, y1), Place(p0, p1, x2, y2))
            == Add(Scale(x1 - x2, Sub(p1, p0)), Scale(y1 - y2, Rotate(Sub(p1, p0))))
  {
    var d := Sub(p1, p0);
    assert (x1 * d.x + y1 * d.y) - (x2 * d.x + y2 * d.y) == (x1 - x2) * d.x + (y1 - y2) * d.y;
    assert (x1 * d.y + y1 * -d.x) - (x2 * d.y + y2 * -d.x) == (x1 - x2) * d.y + (y1 - y2) * -d.x;
  }

  /** The frame (d, Rotate(d)) is orthogonal with both axes of squared length |d|^2. */
  lemma FrameLength(s: real, t: real, d: Point)
    ensures Abs2(Add(Scale(s, d), Scale(t, Rotate(d)))) == (s * s + t * t) * Abs2(d)
  {
    var a, b := d.x, d.y;
    assert Add(Scale(s, d), Scale(t, Rotate(d))) == Point(s * a + t * b, s * b - t * a);
    assert (s * a + t * b) * (s * a + t * b) + (s * b - t * a) * (s * b - t * a)
        == (s * s + t * t) * (a * a + b * b);
  }

  /** Two-dimensional Lagrange identity: the coordinates of u along w and Rotate(w) recover |u|^2 |w|^2. */
  lemma Lagrange(u: Point, w: Point)
    ensures Dot(u, w) * Dot(u, w) + Dot(u, Rotate(w)) * Dot(u, Rotate(w)) == Abs2(u) * Abs2(w)
  {
    var a, b, c, d := u.x, u.y, w.x, w.y;
    assert (a * c + b * d) * (a * c + b * d) + (a * d - b * c) * (a * d - b * c)
        == (a * a + b * b) * (c * c + d * d);
    assert Dot(u, Rotate(w)) == a * d - b * c;
  }

  /** Frame coordinates are linear in the point. */
  lemma CoordDifference(a: Point, b: Point, q: Point, r: Point)
    requires Abs2(Sub(b, a)) != 0.0
    ensures CoordX(a, b, q) - CoordX(a, b, r) == Dot(Sub(q, r), Sub(b, a)) * (1.0 / Abs2(Sub(b, a)))
    ensures CoordY(a, b, q) - CoordY(a, b, r) == Dot(Sub(q, r), Rotate(Sub(b, a))) * (1.0 / Abs2(Sub(b, a)))
  {
    var k := 1.0 / Abs2(Sub(b, a));
    var w, v := Sub(b, a), Rotate(Sub(b, a));
    assert Dot(Sub(q, a), w) - Dot(Sub(r, a), w) == Dot(Sub(q, r), w);
    assert Dot(Sub(q, a), v) - Dot(Sub(r, a), v) == Dot(Sub(q, r), v);
    Distribute(Dot(Sub(q, a), w), Dot(Sub(r, a), w), k);
    Distribute(Dot(Sub(q, a), v), Dot(Sub(r, a), v), k);
  }

  lemma Distribute(m: real, n: real, k: real)
    ensures m * k - n * k == (m - n) * k
  {}

  lemma TimesInverse(s: real, x: real, l: real)
    requires l != 0.0 && s == x * (1.0 / l)
    ensures s * l == x
  {}

  lemma ScaleSquares(s: real, t: real, l: real)
    ensures (s * s + t * t) * l * l == (s * l) * (s * l) + (t * l) * (t * l)
  {}

  lemma SameSquares(p: real, q: real, g: real, h: real)
    requires p == g && q == h
    ensures p * p + q * q == g * g + h * h
  {}

  /** With s = g / l and t = h / l, g^2 + h^2 = n l gives (s^2 + t^2) l = n; m, k and w name
      the same quantities as they appear at the call site. */
  lemma RescaledSquares(s: real, t: real, l: real, g: real, h: real, n: real, m: real, k: real, w: real)
    requires l != 0.0 && s * l == g && t * l == h && g * g + h * h == n * l
    requires m == s * s + t * t && k == l && w == n
    ensures m * k == w
  {
    SameSquares(s * l, t * l, g, h);
    ScaleSquares(s, t, l);
    CancelFactor((s * s + t * t) * l, n, l);
  }

  lemma CancelFactor(a: real, b: real, l: real)
    requires l != 0.0 && a * l == b * l
    ensures a == b
  {}

  /** Squared length, in units of |b - a|, of the difference of the frame coordinates of q and r. */
  function Spread(a: Point, b: Point, q: Point, r: Point): real
    requires Abs2(Sub(b, a)) != 0.0
  {
    var s := CoordX(a, b, q) - CoordX(a, b, r);
    var t := CoordY(a, b, q) - CoordY(a, b, r);
    s * s + t * t
  }

  /** Transformed points lie Spread times |p1 - p0|^2 apart. */
  lemma ImageSpread(a: Point, b: Point, p0: Point, p1: Point, q: Point, r: Point)
    requires Abs2(Sub(b, a)) != 0.0
    ensures Dist2(Transform(a, b, p0, p1, q), Transform(a, b, p0, p1, r)) == Spread(a, b, q, r) * Dist2(p0, p1)
  {
    var s := CoordX(a, b, q) - CoordX(a, b, r);
    var t := CoordY(a, b, q) - CoordY(a, b, r);
    PlaceDifference(p0, p1, CoordX(a, b, q), CoordY(a, b, q), CoordX(a, b, r), CoordY(a, b, r));
    var tq, tr := Transform(a, b, p0, p1, q), Transform(a, b, p0, p1, r);
    assert Sub(tq, tr) == Add(Scale(s, Sub(p1, p0)), Scale(t, Rotate(Sub(p1, p0))));
    FrameImage(Sub(tq, tr), s, t, Sub(p1, p0), Spread(a, b, q, r));
  }

  lemma FrameImage(v: Point, s: real, t: real, d: Point, m: real)
    requires v == Add(Scale(s, d), Scale(t, Rotate(d))) && m == s * s + t * t
    ensures Abs2(v) == m * Abs2(d)
  {
    FrameLength(s, t, d);
  }

  /** Coordinates given as quotients by `l` keep the Lagrange identity once rescaled. */
  lemma QuotientSquares(s: real, t: real, l: real, g: real, h: real, n: real, m: real, k: real, w: real)
    requires l != 0.0 && s == g * (1.0 / l) && t == h * (1.0 / l) && g * g + h * h == n * l
    requires m == s * s + t * t && k == l && w == n
    ensures m * k == w
  {
    TimesInverse(s, g, l);
    TimesInverse(t, h, l);
    RescaledSquares(s, t, l, g, h, n, m, k, w);
  }

  /** Source points lie Spread times |b - a|^2 apart. */
  lemma SourceSpread(a: Point, b: Point, q: Point, r: Point)
    requires Abs2(Sub(b, a)) != 0.0
    ensures Spread(a, b, q, r) * Dist2(a, b) == Dist2(q, r)
  {
    CoordDifference(a, b, q, r);
    Lagrange(Sub(q, r), Sub(b, a));
    QuotientSquares(CoordX(a, b, q) - CoordX(a, b, r), CoordY(a, b, q) - CoordY(a, b, r), Abs2(Sub(b, a)),
                    Dot(Sub(q, r), Sub(b, a)), Dot(Sub(q, r), Rotate(Sub(b, a))), Abs2(Sub(q, r)),
                    Spread(a, b, q, r), Dist2(a, b), Dist2(q, r));
  }

  /** The transform is a similarity: it multiplies every squared distance by
      |p1 - p0|^2 / |b - a|^2. */
  lemma TransformIsSimilarity(a: Point, b: Point, p0: Point, p1: Point, q: Point, r: Point)
    requires Abs2(Sub(b, a)) != 0.0
    ensures Dist2(Transform(a, b, p0, p1, q), Transform(a, b, p0, p1, r)) * Dist2(a, b)
            == Dist2(p0, p1) * Dist2(q, r)
  {
    ImageSpread(a, b, p0, p1, q, r);
    SourceSpread(a, b, q, r);
    ScaledProduct(Dist2(Transform(a, b, p0, p1, q), Transform(a, b, p0, p1, r)), Spread(a, b, q, r),
                  Dist2(p0, p1), Dist2(a, b), Dist2(q, r));
  }

  lemma ScaledProduct(x: real, m: real, n: real, l: real, k: real)
    requires x == m * n && m * l == k
    ensures x * l == n * k
  {
    assert x * l == (m * l) * n;
  }

  // ---------------------------------------------------------------------------
  // What `split` appends

  /** The points split(p0, p1, pattern, iterations, maxLen, result) appends to result. */
  function SplitPoints(p0: Point, p1: Point, pattern: seq<Point>, iterations: int, maxLen: real): (r: seq<Point>)
    requires iterations >= 0
    requires iterations == 0 || |pattern| > 0
    ensures |pattern| >= 2 ==> |r| <= Pow(|pattern| - 1, iterations) - 1
    decreases iterations, |pattern| + 1
  {
    if iterations == 0 then []
    else if !Proper(pattern) then
      (if |pattern| >= 2 then PowPositive(|pattern| - 1, iterations); []
       else [])
    else Edges(p0, p1, pattern, iterations, maxLen, |pattern|)
  }

  /** What the walk over the pattern's edges 1 .. k-1 appends. */
  function Edges(p0: Point, p1: Point, pattern: seq<Point>, iterations: int, maxLen: real, k: nat): (r: seq<Point>)
    requires iterations >= 1 && Proper(pattern) && 1 <= k <= |pattern|
    ensures |r| + (if k == |pattern| then 1 else 0) <= (k - 1) * Pow(|pattern| - 1, iterations - 1)
    decreases iterations, k
  {
    if k == 1 then []
    else
      var prev := Edges(p0, p1, pattern, iterations, maxLen, k - 1);
      var piece := Piece(p0, p1, pattern, iterations, maxLen, k - 1);
      OneMore(k, Pow(|pattern| - 1, iterations - 1));
      prev + piece
  }

  /** What edge i appends: when the untransformed edge passes the gate, the recursive
      substitution of its image and then its transformed end point, unless that is the
      pattern's last point; otherwise nothing. */
  function Piece(p0: Point, p1: Point, pattern: seq<Point>, iterations: int, maxLen: real, i: nat): (r: seq<Point>)
    requires iterations >= 1 && Proper(pattern) && 1 <= i < |pattern|
    ensures |r| + (if i == |pattern| - 1 then 1 else 0) <= Pow(|pattern| - 1, iterations - 1)
    decreases iterations, 0
  {
    if Gated(pattern, maxLen, i) then
      var a, b := pattern[0], Last(pattern);
      var t := Transform(a, b, p0, p1, pattern[i]);
      SplitPoints(Transform(a, b, p0, p1, pattern[i - 1]), t, pattern, iterations - 1, maxLen)
        + (if i < |pattern| - 1 then [t] else [])
    else
      PowPositive(|pattern| - 1, iterations - 1);
      []
  }

  /** split(p0, p1, pattern, iterations, max_len, result): appends to result, recursing
      once per gated pattern edge. */
  lemma AppendAssoc<T>(x: seq<T>, y: seq<T>, z: seq<T>)
    ensures x + y + z == x + (y + z)
  {}

  /** The walk over the first i + 1 points adds edge i's piece to the walk over the first i. */
  lemma EdgesNext(p0: Point, p1: Point, pattern: seq<Point>, iterations: int, maxLen: real, i: nat)
    requires iterations >= 1 && Proper(pattern) && 1 <= i < |pattern|
    ensures Edges(p0, p1, pattern, iterations, maxLen, i + 1)
            == Edges(p0, p1, pattern, iterations, maxLen, i) + Piece(p0, p1, pattern, iterations, maxLen, i)
  {}

  method Split(p0: Point, p1: Point, pattern: seq<Point>, iterations: int, maxLen: real, result: seq<Point>)
    returns (out: seq<Point>)
    requires iterations >= 0
    requires iterations == 0 || |pattern| > 0
    ensures out == result + SplitPoints(p0, p1, pattern, iterations, maxLen)
    decreases iterations, 1
  {
    out := result;
    if iterations == 0 {
      return;
    }
    var a, b := pattern[0], pattern[|pattern| - 1];
    var ab := Sub(b, a);
    var len := Abs2(ab);
    if len < Eps {
      return;
    }
    var prev := p0;
    var i := 0;
    while i < |pattern|
      invariant 0 <= i <= |pattern|
      invariant i > 0 ==> prev == Transform(a, b, p0, p1, pattern[i - 1])
      invariant out == result + Edges(p0, p1, pattern, iterations, maxLen, if i == 0 then 1 else i)
    {
      var transformed := Transform(a, b, p0, p1, pattern[i]);
      if i > 0 {
        ghost var before := out;
        out := SplitEdge(p0, p1, pattern, iterations, maxLen, i, prev, transformed, out);
        EdgesNext(p0, p1, pattern, iterations, maxLen, i);
        AppendAssoc(result, Edges(p0, p1, pattern, iterations, maxLen, i), Piece(p0, p1, pattern, iterations, maxLen, i));
        assert out == result + Edges(p0, p1, pattern, iterations, maxLen, i + 1);
      }
      prev := transformed;
      i := i + 1;
    }
  }

  /** One pass of split's loop for i > 0: a gated edge (pattern[i-1], pattern[i]) is
      substituted between the images prev and transformed, followed by transformed unless
      pattern[i] is the last point. */
  method SplitEdge(p0: Point, p1: Point, pattern: seq<Point>, iterations: int, maxLen: real, i: nat,
                   prev: Point, transformed: Point, result: seq<Point>)
    returns (out: seq<Point>)
    requires iterations >= 1 && Proper(pattern) && 1 <= i < |pattern|
    requires prev == Transform(pattern[0], Last(pattern), p0, p1, pattern[i - 1])
    requires transformed == Transform(pattern[0], Last(pattern), p0, p1, pattern[i])
    ensures out == result + Piece(p0, p1, pattern, iterations, maxLen, i)
    decreases iterations, 0
  {
    out := result;
    if Dist2(pattern[i - 1], pattern[i]) < maxLen {
      assert Gated(pattern, maxLen, i);
      out := Split(prev, transformed, pattern, iterations - 1, maxLen, out);
      if i < |pattern| - 1 {
        out := out + [transformed];
      }
    }
  }


  // ---------------------------------------------------------------------------
  // Properties

  /** Nothing is appended at depth 0 or when the anchors nearly coincide. */
  lemma {:induction false} SplitStops(p0: Point, p1: Point, pattern: seq<Point>, iterations: int, maxLen: real)
    requires iterations >= 0
    requires iterations == 0 || |pattern| > 0
    requires iterations == 0 || Abs2(Sub(Last(pattern), pattern[0])) < Eps
    ensures SplitPoints(p0, p1, pattern, iterations, maxLen) == []
  {
  }

  /** Every edge of the pattern passes the gate. */
  predicate AllGated(pattern: seq<Point>, maxLen: real) {
    forall i :: 1 <= i < |pattern| ==> Gated(pattern, maxLen, i)
  }

  /** When every edge passes the gate, the substitution has exactly (n-1)^depth - 1 points:
      with the two end points, (n-1)^depth segments. */
  lemma {:induction false} SplitCount(p0: Point, p1: Point, pattern: seq<Point>, iterations: int, maxLen: real)
    requires iterations >= 0 && |pattern| >= 2
    requires Proper(pattern) && AllGated(pattern, maxLen)
    ensures |SplitPoints(p0, p1, pattern, iterations, maxLen)| == Pow(|pattern| - 1, iterations) - 1
    decreases iterations, |pattern| + 1
  {
    if iterations > 0 {
      EdgesCount(p0, p1, pattern, iterations, maxLen, |pattern|);
    }
  }

  lemma {:induction false} EdgesCount(p0: Point, p1: Point, pattern: seq<Point>, iterations: int, maxLen: real, k: nat)
    requires iterations >= 1 && |pattern| >= 2 && 1 <= k <= |pattern|
    requires Proper(pattern) && AllGated(pattern, maxLen)
    ensures |Edges(p0, p1, pattern, iterations, maxLen, k)| + (if k == |pattern| then 1 else 0)
            == (k - 1) * Pow(|pattern| - 1, iterations - 1)
    decreases iterations, k
  {
    if k > 1 {
      var i := k - 1;
      var a, b := pattern[0], Last(pattern);
      EdgesCount(p0, p1, pattern, iterations, maxLen, k - 1);
      assert Gated(pattern, maxLen, i);
      SplitCount(Transform(a, b, p0, p1, pattern[i - 1]), Transform(a, b, p0, p1, pattern[i]),
                 pattern, iterations - 1, maxLen);
      OneMore(k, Pow(|pattern| - 1, iterations - 1));
    }
  }

  /** The indices i with 1 <= i < k and i <= n-2 whose incoming edge passes the gate, in order. */
  function GatedInterior(pattern: seq<Point>, maxLen: real, k: nat): (idx: seq<nat>)
    requires k <= |pattern|
    ensures forall j :: 0 <= j < |idx| ==>
              1 <= idx[j] < k && idx[j] <= |pattern| - 2 && Gated(pattern, maxLen, idx[j])
    ensures forall j, j' :: 0 <= j < j' < |idx| ==> idx[j] < idx[j']
    ensures forall i :: 1 <= i < k && i <= |pattern| - 2 && Gated(pattern, maxLen, i) ==> i in idx
  {
    if k <= 1 then []
    else
      var i := k - 1;
      GatedInterior(pattern, maxLen, k - 1)
        + (if i <= |pattern| - 2 && Gated(pattern, maxLen, i) then [i] else [])
  }

  /** The transformed pattern points at the given indices. */
  function Images(p0: Point, p1: Point, pattern: seq<Point>, idx: seq<nat>): seq<Point>
    requires Proper(pattern)
    requires forall j :: 0 <= j < |idx| ==> idx[j] < |pattern|
  {
    seq(|idx|, j requires 0 <= j < |idx| => Transform(pattern[0], Last(pattern), p0, p1, pattern[idx[j]]))
  }

  lemma ImagesAppend(p0: Point, p1: Point, pattern: seq<Point>, idx: seq<nat>, i: nat)
    requires Proper(pattern) && i < |pattern|
    requires forall j :: 0 <= j < |idx| ==> idx[j] < |pattern|
    ensures Images(p0, p1, pattern, idx + [i])
            == Images(p0, p1, pattern, idx) + [Transform(pattern[0], Last(pattern), p0, p1, pattern[i])]
  {}

  /** One level of substitution appends exactly the transformed interior points pattern[i]
      (1 <= i <= n-2) whose incoming edge passes the gate, in pattern order; never the
      transformed first or last point. */
  lemma {:induction false} SplitDepthOne(p0: Point, p1: Point, pattern: seq<Point>, maxLen: real)
    requires Proper(pattern)
    ensures SplitPoints(p0, p1, pattern, 1, maxLen)
            == Images(p0, p1, pattern, GatedInterior(pattern, maxLen, |pattern|))
  {
    EdgesDepthOne(p0, p1, pattern, maxLen, |pattern|);
  }

  lemma {:induction false} EdgesDepthOne(p0: Point, p1: Point, pattern: seq<Point>, maxLen: real, k: nat)
    requires Proper(pattern) && 1 <= k <= |pattern|
    ensures Edges(p0, p1, pattern, 1, maxLen, k) == Images(p0, p1, pattern, GatedInterior(pattern, maxLen, k))
  {
    if k > 1 {
      EdgesDepthOne(p0, p1, pattern, maxLen, k - 1);
      var i := k - 1;
      var before := GatedInterior(pattern, maxLen, k - 1);
      var now := GatedInterior(pattern, maxLen, k);
      var a, b := pattern[0], Last(pattern);
      if i <= |pattern| - 2 && Gated(pattern, maxLen, i) {
        assert now == before + [i];
        assert Piece(p0, p1, pattern, 1, maxLen, i) == [Transform(a, b, p0, p1, pattern[i])];
        ImagesAppend(p0, p1, pattern, before, i);
      } else {
        assert now == before;
        assert Piece(p0, p1, pattern, 1, maxLen, i) == [];
      }
    }
  }

  // ---------------------------------------------------------------------------
  // One level deeper never appends fewer points

  /** split at depth d + 1 appends at least as many points as at depth d, between the same
      endpoints: every gated edge recurses one level deeper between the same transformed points. */
  lemma {:induction false} SplitDeeper(p0: Point, p1: Point, pattern: seq<Point>, d: nat, maxLen: real)
    requires |pattern| > 0
    ensures |SplitPoints(p0, p1, pattern, d, maxLen)| <= |SplitPoints(p0, p1, pattern, d + 1, maxLen)|
    decreases d, |pattern| + 1
  {
    if d > 0 && Proper(pattern) {
      EdgesDeeper(p0, p1, pattern, d, maxLen, |pattern|);
    }
  }

  lemma {:induction false} EdgesDeeper(p0: Point, p1: Point, pattern: seq<Point>, d: nat, maxLen: real, k: nat)
    requires d >= 1 && Proper(pattern) && 1 <= k <= |pattern|
    ensures |Edges(p0, p1, pattern, d, maxLen, k)| <= |Edges(p0, p1, pattern, d + 1, maxLen, k)|
    decreases d, k
  {
    if k > 1 {
      EdgesDeeper(p0, p1, pattern, d, maxLen, k - 1);
      var i := k - 1;
      if Gated(pattern, maxLen, i) {
        var a, b := pattern[0], Last(pattern);
        SplitDeeper(Transform(a, b, p0, p1, pattern[i - 1]), Transform(a, b, p0, p1, pattern[i]),
                    pattern, d - 1, maxLen);
      }
    }
  }
}
