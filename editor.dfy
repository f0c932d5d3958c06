/** The pattern editor: picking a vertex or an edge of the pattern under the mouse, moving,
    inserting and deleting pattern points, and keeping the displayed fractal in step. */
module Editor {
  import opened Geometry
  import opened Substitution
  import opened Builder
  import opened Growth

  datatype Option<T> = None | Some(value: T)

  /** Squared pick radius: a handle of size 5, squared. */
  const PickRadius2: real := 25.0

  predicate VertexNear(pattern: seq<Point>, mouse: Point, i: int)
    requires 0 <= i < |pattern|
  {
    Dist2(pattern[i], mouse) <= PickRadius2
  }

  /** The edge from pattern[i-1] to pattern[i] passes within the pick radius of the mouse. */
  predicate SegmentNear(pattern: seq<Point>, mouse: Point, i: int)
    requires 1 <= i < |pattern|
  {
    Dist2ToSegment(mouse, pattern[i], pattern[i - 1]) <= PickRadius2
  }

  /** The first vertex at index from or later within the pick radius. */
  function FirstNearVertex(pattern: seq<Point>, mouse: Point, from: nat): (r: Option<nat>)
    requires from <= |pattern|
    ensures r.Some? ==> from <= r.value < |pattern|
    decreases |pattern| - from
  {
    if from == |pattern| then None
    else if VertexNear(pattern, mouse, from) then Some(from)
    else FirstNearVertex(pattern, mouse, from + 1)
  }

  /** The first edge index i >= from (and i >= 1) whose edge lies within the pick radius. */
  function FirstNearSegment(pattern: seq<Point>, mouse: Point, from: nat): (r: Option<nat>)
    requires 1 <= from <= |pattern| || (from == 1 && pattern == [])
    ensures r.Some? ==> from <= r.value < |pattern|
    decreases |pattern| - from
  {
    if from >= |pattern| then None
    else if SegmentNear(pattern, mouse, from) then Some(from)
    else FirstNearSegment(pattern, mouse, from + 1)
  }

  /** FirstNearVertex finds a near vertex, and no earlier one from `from` on is near; it
      finds none exactly when no vertex from `from` on is near. */
  lemma {:induction false} FirstNearVertexIsFirst(pattern: seq<Point>, mouse: Point, from: nat)
    requires from <= |pattern|
    ensures var r := FirstNearVertex(pattern, mouse, from);
            && (r.Some? ==> VertexNear(pattern, mouse, r.value)
                            && forall j :: from <= j < r.value ==> !VertexNear(pattern, mouse, j))
            && (r.None? ==> forall j :: from <= j < |pattern| ==> !VertexNear(pattern, mouse, j))
    decreases |pattern| - from
  {
    if from < |pattern| && !VertexNear(pattern, mouse, from) {
      FirstNearVertexIsFirst(pattern, mouse, from + 1);
    }
  }

  /** The same for edges: the first near edge from `from` on, or none when none is near. */
  lemma {:induction false} FirstNearSegmentIsFirst(pattern: seq<Point>, mouse: Point, from: nat)
    requires 1 <= from <= |pattern| || (from == 1 && pattern == [])
    ensures var r := FirstNearSegment(pattern, mouse, from);
            && (r.Some? ==> SegmentNear(pattern, mouse, r.value)
                            && forall j :: from <= j < r.value ==> !SegmentNear(pattern, mouse, j))
            && (r.None? ==> forall j :: from <= j < |pattern| ==> !SegmentNear(pattern, mouse, j))
    decreases |pattern| - from
  {
    if from < |pattern| && !SegmentNear(pattern, mouse, from) {
      FirstNearSegmentIsFirst(pattern, mouse, from + 1);
    }
  }

  datatype Selection = Selection(vertex: Option<nat>, segment: Option<nat>)

  /** What process_mouse_move selects: the first vertex under the mouse; only when there is
      none, the first edge under it. */
  function Select(pattern: seq<Point>, mouse: Point): Selection {
    var v := FirstNearVertex(pattern, mouse, 0);
    if v.Some? then Selection(v, None)
    else Selection(None, FirstNearSegment(pattern, mouse, 1))
  }

  /** Vertices take priority, at most one kind is selected, each selection is the first near
      one, and nothing is selected only when neither a vertex nor an edge is near. */
  lemma SelectIsFirstNear(pattern: seq<Point>, mouse: Point)
    ensures var s := Select(pattern, mouse);
            && !(s.vertex.Some? && s.segment.Some?)
            && (s.vertex.Some? ==> s.vertex.value < |pattern| && VertexNear(pattern, mouse, s.vertex.value)
                                   && forall j :: 0 <= j < s.vertex.value ==> !VertexNear(pattern, mouse, j))
            && (s.vertex.None? ==> forall j :: 0 <= j < |pattern| ==> !VertexNear(pattern, mouse, j))
            && (s.segment.Some? ==> 1 <= s.segment.value < |pattern| && SegmentNear(pattern, mouse, s.segment.value)
                                    && forall j :: 1 <= j < s.segment.value ==> !SegmentNear(pattern, mouse, j))
            && (s.vertex.None? && s.segment.None? ==>
                  forall j :: 1 <= j < |pattern| ==> !SegmentNear(pattern, mouse, j))
  {
    FirstNearVertexIsFirst(pattern, mouse, 0);
    if |pattern| == 0 {
      assert FirstNearSegment(pattern, mouse, 1) == None;
    } else {
      FirstNearSegmentIsFirst(pattern, mouse, 1);
    }
  }

  /** The two selection loops of process_mouse_move. */
  method SelectUnderMouse(pattern: seq<Point>, mouse: Point) returns (s: Selection)
    ensures s == Select(pattern, mouse)
    ensures !(s.vertex.Some? && s.segment.Some?)
  {
    var i := 0;
    while i < |pattern|
      invariant 0 <= i <= |pattern|
      invariant FirstNearVertex(pattern, mouse, i) == FirstNearVertex(pattern, mouse, 0)
    {
      if Dist2(pattern[i], mouse) <= PickRadius2 {
        return Selection(Some(i), None);
      }
      i := i + 1;
    }
    if |pattern| == 0 {
      return Selection(None, None);
    }
    i := 1;
    while i < |pattern|
      invariant 1 <= i <= |pattern|
      invariant FirstNearSegment(pattern, mouse, i) == FirstNearSegment(pattern, mouse, 1)
    {
      if Dist2ToSegment(mouse, pattern[i], pattern[i - 1]) <= PickRadius2 {
        return Selection(None, Some(i));
      }
      i := i + 1;
    }
    return Selection(None, None);
  }

  /** A vertex under the mouse puts both edges at that vertex under the mouse too, which is
      why vertices are tried first. */
  lemma {:induction false} NearVertexNearSegment(pattern: seq<Point>, mouse: Point, i: int)
    requires 1 <= i < |pattern|
    requires VertexNear(pattern, mouse, i) || VertexNear(pattern, mouse, i - 1)
    requires Dist2(pattern[i], pattern[i - 1]) == 0.0 ==> pattern[i] == pattern[i - 1]
    ensures SegmentNear(pattern, mouse, i)
  {
    Dist2ToSegmentAtMostEnds(mouse, pattern[i], pattern[i - 1]);
  }

  // ---------------------------------------------------------------------------
  // Editing

  /** A pattern after some of update_pattern's steps, and whether the fractal must be rebuilt. */
  datatype Edit = Edit(pattern: seq<Point>, changed: bool)

  predicate InRange(sel: Option<nat>, n: nat) {
    sel.Some? && sel.value < n
  }

  /** Left button on a selected vertex: the vertex moves to the mouse. */
  function MoveStep(e: Edit, vertex: Option<nat>, mouse: Point): (r: Edit)
    ensures |r.pattern| == |e.pattern|
    ensures InRange(vertex, |e.pattern|) ==>
              r.pattern[vertex.value] == mouse
              && (forall j :: 0 <= j < |e.pattern| && j != vertex.value ==> r.pattern[j] == e.pattern[j])
              && (r.changed <==> e.changed || e.pattern[vertex.value] != mouse)
    ensures !InRange(vertex, |e.pattern|) ==> r == e
  {
    if InRange(vertex, |e.pattern|)
    then Edit(e.pattern[vertex.value := mouse], e.changed || e.pattern[vertex.value] != mouse)
    else e
  }

  /** Left button on a selected edge s: the mouse position becomes a new pattern point at
      index s, between the old pattern[s-1] and pattern[s]. */
  function InsertStep(e: Edit, segment: Option<nat>, mouse: Point): (r: Edit)
    ensures InRange(segment, |e.pattern|) ==>
              var s := segment.value;
              |r.pattern| == |e.pattern| + 1 && r.changed && r.pattern[s] == mouse
              && (forall j :: 0 <= j < s ==> r.pattern[j] == e.pattern[j])
              && (forall j :: s < j < |r.pattern| ==> r.pattern[j] == e.pattern[j - 1])
    ensures !InRange(segment, |e.pattern|) ==> r == e
  {
    if InRange(segment, |e.pattern|)
    then Edit(e.pattern[..segment.value] + [mouse] + e.pattern[segment.value..], true)
    else e
  }

  /** Right button on a selected vertex: that vertex is deleted. */
  function EraseStep(e: Edit, vertex: Option<nat>): (r: Edit)
    ensures InRange(vertex, |e.pattern|) ==>
              var v := vertex.value;
              |r.pattern| == |e.pattern| - 1 && r.changed
              && (forall j :: 0 <= j < v ==> r.pattern[j] == e.pattern[j])
              && (forall j :: v <= j < |r.pattern| ==> r.pattern[j] == e.pattern[j + 1])
    ensures !InRange(vertex, |e.pattern|) ==> r == e
  {
    if InRange(vertex, |e.pattern|)
    then Edit(e.pattern[..vertex.value] + e.pattern[vertex.value + 1..], true)
    else e
  }

  /** update_pattern's edits in order: move, then insert, then delete; each step checks its
      index against the pattern as the previous steps left it. */
  function Edited(pattern: seq<Point>, sel: Selection, mouse: Point, left: bool, right: bool): Edit {
    var e0 := Edit(pattern, false);
    var e1 := if left then InsertStep(MoveStep(e0, sel.vertex, mouse), sel.segment, mouse) else e0;
    if right then EraseStep(e1, sel.vertex) else e1
  }

  /** When update_pattern decides no rebuild is needed, the pattern is exactly as it was,
      so the fractal on screen still belongs to it. */
  lemma {:induction false} UnchangedWhenNoRebuild(pattern: seq<Point>, sel: Selection, mouse: Point, left: bool, right: bool)
    ensures !Edited(pattern, sel, mouse, left, right).changed ==> Edited(pattern, sel, mouse, left, right).pattern == pattern
  {
    var e0 := Edit(pattern, false);
    if left && InRange(sel.vertex, |pattern|) {
      var e := MoveStep(e0, sel.vertex, mouse);
      if !e.changed {
        assert pattern[sel.vertex.value] == mouse;
        assert e.pattern == pattern;
      }
    }
  }

  /** The body of update_pattern up to the rebuild: the edited pattern and update_needed. */
  method EditPattern(pattern0: seq<Point>, sel: Selection, mouse: Point, left: bool, right: bool)
    returns (pattern: seq<Point>, updateNeeded: bool)
    ensures Edit(pattern, updateNeeded) == Edited(pattern0, sel, mouse, left, right)
  {
    pattern := pattern0;
    updateNeeded := false;
    ghost var e := Edit(pattern, false);
    if left {
      if sel.vertex.Some? && sel.vertex.value < |pattern| {
        var v := sel.vertex.value;
        updateNeeded := updateNeeded || pattern[v] != mouse;
        pattern := pattern[v := mouse];
      }
      e := MoveStep(e, sel.vertex, mouse);
      assert e == Edit(pattern, updateNeeded);
      if sel.segment.Some? && sel.segment.value < |pattern| {
        var s := sel.segment.value;
        updateNeeded := true;
        pattern := pattern[..s] + [mouse] + pattern[s..];
      }
      e := InsertStep(e, sel.segment, mouse);
      assert e == Edit(pattern, updateNeeded);
    }
    if right {
      if sel.vertex.Some? && sel.vertex.value < |pattern| {
        var v := sel.vertex.value;
        updateNeeded := true;
        pattern := pattern[..v] + pattern[v + 1..];
      }
      e := EraseStep(e, sel.vertex);
      assert e == Edit(pattern, updateNeeded);
    }
  }

  /** The fractal shown for a pattern after a rebuild. */
  function Rebuilt(pattern: seq<Point>): seq<Point> {
    Fractal(pattern, DefaultDepth(|pattern|))
  }

  /** The state of the editor: the globals of the program. */
  class Session {
    var pattern: seq<Point>
    var fractal: seq<Point>
    var selection: Selection
    var mouse: Point
    var leftPressed: bool
    var rightPressed: bool

    /** The fractal on screen starts at the pattern's first point and ends at its last,
        and is empty while the pattern has fewer than two points; at most one of a vertex
        and an edge is selected. */
    ghost predicate Valid()
      reads this
    {
      (|pattern| < 2 ==> fractal == [])
      && (|pattern| >= 2 ==> |fractal| >= 2 && fractal[0] == pattern[0] && fractal[|fractal| - 1] == Last(pattern))
      && !(selection.vertex.Some? && selection.segment.Some?)
    }

    /** The program's start: the five-point seed pattern and its fractal of 4097 points. */
    constructor ()
      ensures Valid()
      ensures pattern == SeedPattern() && fractal == Fractal(SeedPattern(), 6) && |fractal| == 4097
      ensures selection == Selection(None, None) && !leftPressed && !rightPressed
    {
      var seed := SeedPattern();
      SeedFractalSize();
      FractalEnds(seed, 6);
      var built := BuildFractalDefault(seed);
      pattern, fractal := seed, built;
      selection := Selection(None, None);
      mouse := Point(0.0, 0.0);
      leftPressed, rightPressed := false, false;
    }

    /** update_pattern(): e is the edit applied to the pattern. */
    method UpdatePattern() returns (ghost e: Edit)
      requires Valid()
      modifies this
      ensures Valid()
      ensures e == Edited(old(pattern), old(selection), old(mouse), old(leftPressed), old(rightPressed))
      ensures pattern == e.pattern
      ensures e.changed ==> fractal == Rebuilt(pattern)
      ensures !e.changed ==> fractal == old(fractal)
      ensures selection == old(selection) && mouse == old(mouse)
      ensures leftPressed == old(leftPressed) && rightPressed == old(rightPressed)
    {
      e := Edited(pattern, selection, mouse, leftPressed, rightPressed);
      var p, updateNeeded := EditPattern(pattern, selection, mouse, leftPressed, rightPressed);
      UnchangedWhenNoRebuild(pattern, selection, mouse, leftPressed, rightPressed);
      pattern := p;
      if updateNeeded {
        var f := BuildFractalDefault(p);
        FractalEnds(p, DefaultDepth(|p|));
        fractal := f;
      }
    }

    /** The middle of process_mouse_move(): select what lies under the mouse. */
    method Reselect()
      requires Valid()
      modifies this
      ensures Valid()
      ensures selection == Select(pattern, mouse)
      ensures pattern == old(pattern) && fractal == old(fractal) && mouse == old(mouse)
      ensures leftPressed == old(leftPressed) && rightPressed == old(rightPressed)
    {
      selection := SelectUnderMouse(pattern, mouse);
    }

    /** process_mouse_move(): apply pending edits (first), select what is under the mouse on
        the edited pattern, and apply the edits again with the new selection (second). */
    method ProcessMouseMove() returns (ghost first: Edit, ghost between: seq<Point>, ghost second: Edit)
      requires Valid()
      modifies this
      ensures Valid()
      ensures mouse == old(mouse) && leftPressed == old(leftPressed) && rightPressed == old(rightPressed)
      ensures first == Edited(old(pattern), old(selection), mouse, leftPressed, rightPressed)
      ensures first.changed ==> between == Rebuilt(first.pattern)
      ensures !first.changed ==> between == old(fractal)
      ensures selection == Select(first.pattern, mouse)
      ensures second == Edited(first.pattern, selection, mouse, leftPressed, rightPressed)
      ensures pattern == second.pattern
      ensures second.changed ==> fractal == Rebuilt(pattern)
      ensures !second.changed ==> fractal == between
    {
      first := UpdatePattern();
      between := fractal;
      Reselect();
      assert Valid();
      second := UpdatePattern();
    }

    /** The per-frame growth step: split_largest_2 on the fractal on screen. */
    method Grow()
      requires Valid()
      modifies this
      ensures Valid()
      ensures pattern == old(pattern) && selection == old(selection)
      ensures fractal == Grown(old(fractal), pattern)
      ensures mouse == old(mouse) && leftPressed == old(leftPressed) && rightPressed == old(rightPressed)
    {
      var f := fractal;
      fractal := SplitLargest2(f, pattern);
      if |f| > 0 {
        GrowthKeepsPoints(f, pattern, 0);
      }
    }
  }
}
