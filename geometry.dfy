/** Plane vectors and the squared-distance primitives of the fractal editor.
    Coordinates are real numbers: the model does not follow IEEE-754 rounding. */
module Geometry {

  datatype Point = Point(x: real, y: real)

  function Add(a: Point, b: Point): Point {
    Point(a.x + b.x, a.y + b.y)
  }

  function Sub(a: Point, b: Point): Point {
    Point(a.x - b.x, a.y - b.y)
  }

  /** k * a */
  function Scale(k: real, a: Point): Point {
    Point(k * a.x, k * a.y)
  }

  function Dot(a: Point, b: Point): real {
    a.x * b.x + a.y * b.y
  }

  /** Squared length. */
  function Abs2(a: Point): (r: real)
    ensures r >= 0.0
    ensures a == Point(0.0, 0.0) ==> r == 0.0
  {
    SquareNonneg(a.x);
    SquareNonneg(a.y);
    Dot(a, a)
  }

  /** Squared distance from a to b. */
  function Dist2(a: Point, b: Point): (r: real)
    ensures r >= 0.0
    ensures a == b ==> r == 0.0
    ensures r == Abs2(Sub(a, b))
  {
    Abs2(Sub(b, a))
  }

  /** Quarter turn (x, y) -> (y, -x): orthogonal to its argument, same length. */
  function Rotate(a: Point): (r: Point)
    ensures Dot(a, r) == 0.0
    ensures Abs2(r) == Abs2(a)
  {
    Point(a.y, -a.x)
  }

  /** std::clamp(v, lo, hi) */
  function Clamp(v: real, lo: real, hi: real): (r: real)
    requires lo <= hi
    ensures lo <= r <= hi
    ensures lo <= v <= hi ==> r == v
  {
    if v < lo then lo else if hi < v then hi else v
  }

  /** The point v + s * (w - v) of the line through v and w. */
  function OnSegment(v: Point, w: Point, s: real): Point {
    Add(v, Scale(s, Sub(w, v)))
  }

  /** Squared distance from p to the segment v-w: the projection parameter of p
      on the line is clamped to [0, 1]; a degenerate segment falls back to v.
      The result is the least squared distance from p to any point of the segment. */
  function Dist2ToSegment(p: Point, v: Point, w: Point): (r: real)
    ensures r >= 0.0
    ensures v == w ==> r == Dist2(p, v)
  {
    var l2 := Dist2(v, w);
    if l2 == 0.0 then Dist2(p, v)
    else
      var t := Clamp(Dot(Sub(p, v), Sub(w, v)) / l2, 0.0, 1.0);
      Dist2(p, OnSegment(v, w, t))
  }

  // Small facts of real arithmetic, stated once so that the solver never has to
  // search for them inside a larger goal.

  lemma SquareNonneg(a: real)
    ensures a * a >= 0.0
  {}

  lemma SquareExpand(s: real, a: real, b: real)
    ensures (s * a - b) * (s * a - b) == s * s * (a * a) - 2.0 * s * (a * b) + b * b
  {}

  lemma DifferenceFactors(s: real, t: real, l: real, d: real)
    ensures (s * s * l - 2.0 * s * d) - (t * t * l - 2.0 * t * d) == (s - t) * ((s + t) * l - 2.0 * d)
  {}

  lemma TimesZero(s: real)
    ensures s * 0.0 == 0.0
  {}

  lemma ProductNonneg(a: real, b: real)
    requires (a >= 0.0 && b >= 0.0) || (a <= 0.0 && b <= 0.0)
    ensures a * b >= 0.0
  {}

  /** The part of the squared distance to the point at parameter s that depends on s. */
  function Quadratic(s: real, l: real, d: real): real {
    s * s * l - 2.0 * s * d
  }

  /** The squared distance from p to the point at parameter s, as a quadratic in s. */
  lemma Dist2AlongLine(p: Point, v: Point, w: Point, s: real)
    ensures Dist2(p, OnSegment(v, w, s))
            == Abs2(Sub(p, v)) + Quadratic(s, Dist2(v, w), Dot(Sub(p, v), Sub(w, v)))
  {
    var u, d := Sub(p, v), Sub(w, v);
    var q := OnSegment(v, w, s);
    assert Sub(q, p) == Point(s * d.x - u.x, s * d.y - u.y);
    ExpandPair(s, d.x, d.y, u.x, u.y, Dist2(v, w), Dot(u, d), Abs2(u), Dist2(p, q));
  }

  /** The expansion behind Dist2AlongLine, over plain reals; l, dd, u2 and r name the
      caller's terms for the squared length, the dot product, |u|^2 and the distance. */
  lemma ExpandPair(s: real, a: real, b: real, c: real, e: real, l: real, dd: real, u2: real, r: real)
    requires l == a * a + b * b && dd == c * a + e * b && u2 == c * c + e * e
    requires r == (s * a - c) * (s * a - c) + (s * b - e) * (s * b - e)
    ensures r == u2 + Quadratic(s, l, dd)
  {
    SquareExpand(s, a, c);
    SquareExpand(s, b, e);
  }

  /** Clamping the stationary point d / l of the quadratic s*s*l - 2*s*d to [0, 1]
      gives its least value on [0, 1]. */
  lemma ClampedMinimizes(s: real, l: real, d: real)
    requires 0.0 <= s <= 1.0 && l > 0.0
    ensures Quadratic(Clamp(d / l, 0.0, 1.0), l, d) <= Quadratic(s, l, d)
  {
    var t := Clamp(d / l, 0.0, 1.0);
    DifferenceFactors(s, t, l, d);
    var g := (s + t) * l - 2.0 * d;
    if d / l < 0.0 {
      assert d < 0.0;
      ProductNonneg(s, l);
      ProductNonneg(s - t, g);
    } else if 1.0 < d / l {
      assert d > l;
      ProductNonneg(s - t, g);
    } else {
      assert d == t * l;
      assert g == (s - t) * l;
      ProductNonneg(s - t, s - t);
      ProductNonneg((s - t) * (s - t), l);
    }
  }

  /** For a proper segment the clamped projection beats every point of the segment. */
  lemma ProjectionIsLeast(p: Point, v: Point, w: Point, s: real)
    requires 0.0 <= s <= 1.0
    requires Dist2(v, w) != 0.0
    ensures Dist2ToSegment(p, v, w) <= Dist2(p, OnSegment(v, w, s))
  {
    var l2 := Dist2(v, w);
    var dd := Dot(Sub(p, v), Sub(w, v));
    var t := Clamp(dd / l2, 0.0, 1.0);
    var ds, dt := Dist2(p, OnSegment(v, w, s)), Dist2(p, OnSegment(v, w, t));
    var qs, qt := Quadratic(s, l2, dd), Quadratic(t, l2, dd);
    Dist2AlongLine(p, v, w, s);
    Dist2AlongLine(p, v, w, t);
    ClampedMinimizes(s, l2, dd);
    assert ds - dt == qs - qt;
    assert dt <= ds;
    assert Dist2ToSegment(p, v, w) == dt;
  }

  /** A segment whose ends coincide is a single point. */
  lemma DegenerateSegment(p: Point, v: Point, w: Point, s: real)
    requires v == w
    ensures OnSegment(v, w, s) == v
    ensures Dist2ToSegment(p, v, w) == Dist2(p, v)
  {
    assert Sub(w, v) == Point(0.0, 0.0);
    TimesZero(s);
    assert Scale(s, Sub(w, v)) == Point(0.0, 0.0);
  }

  /** The clamped projection is the closest point of the segment to p: the result is at
      most the distance to every point of the segment, and some point of it attains it.
      The second requires holds for all real points; it is stated because the
      solver does not derive "a sum of squares is zero only at zero" by itself. */
  lemma Dist2ToSegmentIsLeast(p: Point, v: Point, w: Point, s: real)
    requires 0.0 <= s <= 1.0
    requires Dist2(v, w) == 0.0 ==> v == w
    ensures Dist2ToSegment(p, v, w) <= Dist2(p, OnSegment(v, w, s))
    ensures exists s' :: 0.0 <= s' <= 1.0 && Dist2ToSegment(p, v, w) == Dist2(p, OnSegment(v, w, s'))
  {
    if Dist2(v, w) == 0.0 {
      DegenerateSegment(p, v, w, s);
      SegmentEnds(v, w);
      assert Dist2ToSegment(p, v, w) == Dist2(p, OnSegment(v, w, 0.0));
    } else {
      ProjectionIsLeast(p, v, w, s);
      var t := Clamp(Dot(Sub(p, v), Sub(w, v)) / Dist2(v, w), 0.0, 1.0);
      assert Dist2ToSegment(p, v, w) == Dist2(p, OnSegment(v, w, t));
    }
  }

  /** Corollary used by vertex/segment selection: a point near a segment end is near the segment. */
  lemma {:induction false} Dist2ToSegmentAtMostEnds(p: Point, v: Point, w: Point)
    requires Dist2(v, w) == 0.0 ==> v == w
    ensures Dist2ToSegment(p, v, w) <= Dist2(p, v)
    ensures Dist2ToSegment(p, v, w) <= Dist2(p, w)
  {
    SegmentEnds(v, w);
    Dist2ToSegmentIsLeast(p, v, w, 0.0);
    Dist2ToSegmentIsLeast(p, v, w, 1.0);
  }

  /** Parameters 0 and 1 are the two ends of the segment. */
  lemma SegmentEnds(v: Point, w: Point)
    ensures OnSegment(v, w, 0.0) == v
    ensures OnSegment(v, w, 1.0) == w
  {}
}
