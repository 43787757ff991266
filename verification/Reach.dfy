/**
  Truncating the terminal reach at the outlet, over the reals.
 */
module Reach {
  import opened Prelude

  datatype Point = Point(x: real, y: real)

  datatype Geometry = LineString(coords: seq<Point>) | MultiLineString(lines: seq<seq<Point>>) | Other(tag: int)

  function DistSq(a: Point, b: Point): real {
    (a.x - b.x) * (a.x - b.x) + (a.y - b.y) * (a.y - b.y)
  }

  function Clamp(t: real): real {
    if t < 0.0 then 0.0 else if t > 1.0 then 1.0 else t
  }

  /** The point of the segment from `a` to `b` at parameter `t`. */
  function On(a: Point, b: Point, t: real): Point {
    Point(a.x + t * (b.x - a.x), a.y + t * (b.y - a.y))
  }

  function LengthSq(a: Point, b: Point): real {
    (b.x - a.x) * (b.x - a.x) + (b.y - a.y) * (b.y - a.y)
  }

  function Dot(p: Point, a: Point, b: Point): real {
    (p.x - a.x) * (b.x - a.x) + (p.y - a.y) * (b.y - a.y)
  }

  /** Parameter of the projection of `p` onto the segment. */
  function Parameter(p: Point, a: Point, b: Point): (t: real)
    ensures 0.0 <= t <= 1.0
  {
    if LengthSq(a, b) == 0.0 then 0.0 else Clamp(Dot(p, a, b) / LengthSq(a, b))
  }

  /** `project_point_to_segment` */
  function Project(p: Point, a: Point, b: Point): Point {
    if LengthSq(a, b) == 0.0 then a else On(a, b, Parameter(p, a, b))
  }

  // ---- Projection is nearest ----------------------------------------------------------

  lemma SquareIsPositive(x: real, square: real)
    requires square == x * x
    ensures square >= 0.0
  {
  }

  lemma ProductOfSigns(x: real, y: real)
    requires (x >= 0.0 && y >= 0.0) || (x <= 0.0 && y <= 0.0)
    ensures x * y >= 0.0
  {
  }

  /** Squared distance to a point of a segment is a quadratic in its parameter. */
  lemma DistanceIsQuadratic(p: Point, a: Point, b: Point, s: real)
    ensures DistSq(p, On(a, b, s)) == DistSq(p, a) - 2.0 * s * Dot(p, a, b) + s * s * LengthSq(a, b)
  {
    var wx, wy, vx, vy := p.x - a.x, p.y - a.y, b.x - a.x, b.y - a.y;
    var q, dx, dy := On(a, b, s), s * vx, s * vy;
    assert q == Point(a.x + dx, a.y + dy);
    DistanceOfOffsets(p, q, wx - dx, wy - dy);
    DistanceOfOffsets(p, a, wx, wy);
    QuadraticOfOffsets(wx, wy, vx, vy, s);
    var dot, length := wx * vx + wy * vy, vx * vx + vy * vy;
    assert Dot(p, a, b) == dot && LengthSq(a, b) == length;
  }

  lemma DistanceOfOffsets(p: Point, q: Point, x: real, y: real)
    requires p.x - q.x == x && p.y - q.y == y
    ensures DistSq(p, q) == x * x + y * y
  {
  }

  lemma QuadraticOfOffsets(wx: real, wy: real, vx: real, vy: real, s: real)
    ensures (wx - s * vx) * (wx - s * vx) + (wy - s * vy) * (wy - s * vy)
            == (wx * wx + wy * wy) - 2.0 * s * (wx * vx + wy * vy) + s * s * (vx * vx + vy * vy)
  {
    SquareOfDifference(wx, s, vx);
    SquareOfDifference(wy, s, vy);
    Collect(s, wx * vx, wy * vy, vx * vx, vy * vy);
  }

  lemma SquareOfDifference(w: real, s: real, v: real)
    ensures (w - s * v) * (w - s * v) == w * w - 2.0 * s * (w * v) + s * s * (v * v)
  {
    var d := s * v;
    assert (w - d) * (w - d) == w * w - 2.0 * (w * d) + d * d;
    assert w * d == s * (w * v);
    assert d * d == s * s * (v * v);
  }

  lemma Collect(s: real, d: real, e: real, m: real, n: real)
    ensures - 2.0 * s * d - 2.0 * s * e == - 2.0 * s * (d + e)
    ensures s * s * m + s * s * n == s * s * (m + n)
  {
  }

  /** The quadratic grows away from its clamped minimum. */
  lemma ClampedMinimum(length: real, dot: real, s: real)
    requires length > 0.0 && 0.0 <= s <= 1.0
    ensures var t := Clamp(dot / length); - 2.0 * t * dot + t * t * length <= - 2.0 * s * dot + s * s * length
  {
    var q := dot / length;
    var t := Clamp(q);
    assert q * length == dot;
    var gap := (s - t) * (s + t - 2.0 * q);
    if q < 0.0 || q > 1.0 {
      ProductOfSigns(s - t, s + t - 2.0 * q);
    } else {
      SquareIsPositive(s - t, (s - t) * (s - t));
    }
    ProductOfSigns(gap, length);
    GapIsDifference(length, q, s, t);
  }

  lemma GapIsDifference(length: real, q: real, s: real, t: real)
    ensures (s - t) * (s + t - 2.0 * q) * length
            == (- 2.0 * s * (q * length) + s * s * length) - (- 2.0 * t * (q * length) + t * t * length)
  {
    assert (s - t) * (s + t - 2.0 * q) == (s * s - 2.0 * s * q) - (t * t - 2.0 * t * q);
    Distribute(s, q, length);
    Distribute(t, q, length);
  }

  lemma Distribute(s: real, q: real, length: real)
    ensures (s * s - 2.0 * s * q) * length == - 2.0 * s * (q * length) + s * s * length
  {
    assert s * q * length == s * (q * length);
  }

  lemma ProductIsPositive(x: real, y: real, product: real)
    requires product == x * y && ((x > 0.0 && y > 0.0) || (x < 0.0 && y < 0.0))
    ensures product > 0.0
  {
  }

  lemma SumIsPositive(x: real, y: real, a: real, b: real, sum: real)
    requires a == x * x && b == y * y && sum == a + b && (x != 0.0 || y != 0.0)
    ensures sum > 0.0
  {
    SquareIsPositive(x, a);
    SquareIsPositive(y, b);
    if x != 0.0 {
      ProductIsPositive(x, x, a);
    } else {
      ProductIsPositive(y, y, b);
    }
  }

  /** Different points are apart. */
  lemma SamePoint(p: Point, q: Point)
    requires DistSq(p, q) <= 0.0
    ensures p == q
  {
    var x, y := p.x - q.x, p.y - q.y;
    DistanceOfOffsets(p, q, x, y);
    if x != 0.0 || y != 0.0 {
      SumIsPositive(x, y, x * x, y * y, DistSq(p, q));
    }
  }

  lemma SegmentHasLength(a: Point, b: Point)
    ensures LengthSq(a, b) >= 0.0
    ensures LengthSq(a, b) == 0.0 ==> a == b
  {
    var x, y := b.x - a.x, b.y - a.y;
    SquareIsPositive(x, x * x);
    SquareIsPositive(y, y * y);
    assert LengthSq(a, b) == DistSq(b, a);
    if LengthSq(a, b) == 0.0 {
      SamePoint(b, a);
    }
  }

  /** The projection is a point of the segment, and no point of the segment is nearer. */
  lemma ProjectionIsNearest(p: Point, a: Point, b: Point, s: real)
    requires 0.0 <= s <= 1.0
    ensures Project(p, a, b) == On(a, b, Parameter(p, a, b))
    ensures DistSq(p, Project(p, a, b)) <= DistSq(p, On(a, b, s))
  {
    SegmentHasLength(a, b);
    if LengthSq(a, b) != 0.0 {
      ProjectionOnLongSegment(p, a, b, s);
    }
  }

  lemma ProjectionOnLongSegment(p: Point, a: Point, b: Point, s: real)
    requires 0.0 <= s <= 1.0 && LengthSq(a, b) > 0.0
    ensures DistSq(p, On(a, b, Parameter(p, a, b))) <= DistSq(p, On(a, b, s))
  {
    DistanceIsQuadratic(p, a, b, s);
    DistanceIsQuadratic(p, a, b, Parameter(p, a, b));
    ClampedMinimum(LengthSq(a, b), Dot(p, a, b), s);
  }

  // ---- The nearest segment ------------------------------------------------------------

  function SegmentDistance(coords: seq<Point>, p: Point, i: nat): real
    requires i + 1 < |coords|
  {
    DistSq(p, Project(p, coords[i], coords[i + 1]))
  }

  /** The first segment at the least distance. */
  ghost predicate IsNearestSegment(coords: seq<Point>, p: Point, seg: nat) {
    && seg + 1 < |coords|
    && (forall i :: 0 <= i < |coords| - 1 ==> SegmentDistance(coords, p, seg) <= SegmentDistance(coords, p, i))
    && (forall i :: 0 <= i < seg ==> SegmentDistance(coords, p, seg) < SegmentDistance(coords, p, i))
  }

  /** The search over all segments; `None` is the infinite start value. */
  method NearestSegment(coords: seq<Point>, p: Point) returns (seg: nat)
    requires |coords| >= 2
    ensures IsNearestSegment(coords, p, seg)
  {
    seg := 0;
    var best: Option<real> := None;
    for i := 0 to |coords| - 1
      invariant best.None? <==> i == 0
      invariant i > 0 ==> seg < i && best == Some(SegmentDistance(coords, p, seg))
      invariant forall j :: 0 <= j < i ==> best.value <= SegmentDistance(coords, p, j)
      invariant forall j :: 0 <= j < seg ==> best.Some? && best.value < SegmentDistance(coords, p, j)
    {
      var d := DistSq(p, Project(p, coords[i], coords[i + 1]));
      assert d == SegmentDistance(coords, p, i);
      if best.None? || d < best.value {
        best := Some(d);
        seg := i;
      }
    }
  }

  /** No point of any segment is nearer than the projection onto the nearest segment. */
  lemma NearestIsGlobal(coords: seq<Point>, p: Point, seg: nat, i: nat, s: real)
    requires IsNearestSegment(coords, p, seg) && i + 1 < |coords| && 0.0 <= s <= 1.0
    ensures SegmentDistance(coords, p, seg) <= DistSq(p, On(coords[i], coords[i + 1], s))
  {
    ProjectionIsNearest(p, coords[i], coords[i + 1], s);
    assert SegmentDistance(coords, p, seg) <= SegmentDistance(coords, p, i);
  }

  // ---- Which end is upstream ----------------------------------------------------------

  /** First and last point of a line. */
  function Ends(line: seq<Point>): seq<Point> {
    if line == [] then [] else [line[0], line[|line| - 1]]
  }

  predicate IsEndOf(g: Geometry, e: Point) {
    match g
    case LineString(coords) => e in Ends(coords)
    case MultiLineString(lines) => AmongEnds(lines, |lines|, e)
    case Other(_) => false
  }

  ghost predicate IsEnd(others: seq<Geometry>, e: Point) {
    exists g :: g in others && IsEndOf(g, e)
  }

  /** Least distance to the points of a set; `None` stands for infinity. */
  ghost predicate Least(from: Point, points: set<Point>, m: Option<real>) {
    match m
    case None => points == {}
    case Some(d) =>
      && (exists e :: e in points && DistSq(from, e) == d)
      && forall e :: e in points ==> d <= DistSq(from, e)
  }

  function Lower(m: Option<real>, d: real): Option<real> {
    if m.None? || d < m.value then Some(d) else m
  }

  lemma LowerLeast(from: Point, points: set<Point>, m: Option<real>, e: Point)
    requires Least(from, points, m)
    ensures Least(from, points + {e}, Lower(m, DistSq(from, e)))
  {
    if m.Some? {
      var f :| f in points && DistSq(from, f) == m.value;
      assert f in points + {e};
    }
    assert e in points + {e};
  }

  /** Distances of the two ends of a reach to the ends seen so far. */
  datatype Nearness = Nearness(start: Option<real>, end: Option<real>)

  method AddEnds(start: Point, end: Point, line: seq<Point>, n: Nearness, ghost points: set<Point>)
    returns (m: Nearness)
    requires Least(start, points, n.start) && Least(end, points, n.end)
    ensures var all := points + set e | e in Ends(line); Least(start, all, m.start) && Least(end, all, m.end)
  {
    m := n;
    var ends := Ends(line);
    ghost var seen := points;
    for k := 0 to |ends|
      invariant seen == points + set e | e in ends[..k]
      invariant Least(start, seen, m.start) && Least(end, seen, m.end)
    {
      LowerLeast(start, seen, m.start, ends[k]);
      LowerLeast(end, seen, m.end, ends[k]);
      m := Nearness(Lower(m.start, DistSq(start, ends[k])), Lower(m.end, DistSq(end, ends[k])));
      seen := seen + {ends[k]};
    }
    assert ends[..|ends|] == ends;
  }

  predicate AmongEnds(lines: seq<seq<Point>>, n: nat, e: Point)
    requires n <= |lines|
  {
    exists i :: 0 <= i < n && e in Ends(lines[i])
  }

  lemma AmongNext(lines: seq<seq<Point>>, n: nat)
    requires n < |lines|
    ensures forall e :: AmongEnds(lines, n + 1, e) <==> AmongEnds(lines, n, e) || e in Ends(lines[n])
  {
  }

  method AddLines(start: Point, end: Point, lines: seq<seq<Point>>, n: Nearness, ghost points: set<Point>)
    returns (m: Nearness, ghost all: set<Point>)
    requires Least(start, points, n.start) && Least(end, points, n.end)
    ensures Least(start, all, m.start) && Least(end, all, m.end)
    ensures forall e :: e in all <==> e in points || AmongEnds(lines, |lines|, e)
  {
    m, all := n, points;
    for i := 0 to |lines|
      invariant Least(start, all, m.start) && Least(end, all, m.end)
      invariant forall e :: e in all <==> e in points || AmongEnds(lines, i, e)
    {
      AmongNext(lines, i);
      m := AddEnds(start, end, lines[i], m, all);
      all := all + set e | e in Ends(lines[i]);
    }
  }

  method AddGeometry(start: Point, end: Point, g: Geometry, n: Nearness, ghost points: set<Point>)
    returns (m: Nearness, ghost all: set<Point>)
    requires Least(start, points, n.start) && Least(end, points, n.end)
    ensures Least(start, all, m.start) && Least(end, all, m.end)
    ensures forall e :: e in all <==> e in points || IsEndOf(g, e)
  {
    m, all := n, points;
    match g
    case LineString(coords) =>
      m := AddEnds(start, end, coords, m, all);
      all := all + set e | e in Ends(coords);
    case MultiLineString(lines) =>
      m, all := AddLines(start, end, lines, m, all);
    case Other(_) =>
  }

  method EndDistances(start: Point, end: Point, others: seq<Geometry>) returns (m: Nearness, ghost all: set<Point>)
    ensures Least(start, all, m.start) && Least(end, all, m.end)
    ensures forall e :: e in all <==> IsEnd(others, e)
  {
    m, all := Nearness(None, None), {};
    for i := 0 to |others|
      invariant Least(start, all, m.start) && Least(end, all, m.end)
      invariant forall e :: e in all <==> exists j :: 0 <= j < i && IsEndOf(others[j], e)
    {
      m, all := AddGeometry(start, end, others[i], m, all);
    }
    forall e ensures e in all <==> IsEnd(others, e) {
      if g :| g in others && IsEndOf(g, e) {
        var j :| 0 <= j < |others| && others[j] == g;
      }
    }
  }

  /**
    The start of the line is its upstream end: no other reach ends nearer to the line's end
    than some reach ends to its start.  Without other reaches, the start is not nearer to the
    outlet than the end, or the outlet is nearest to a later segment.
   */
  ghost predicate StartIsUpstream(coords: seq<Point>, p: Point, others: seq<Geometry>, seg: nat)
    requires |coords| >= 2
  {
    var start, end := coords[0], coords[|coords| - 1];
    if others == [] then DistSq(start, p) >= DistSq(end, p) || seg > 0
    else forall e :: IsEnd(others, e) ==> exists f :: IsEnd(others, f) && DistSq(start, f) <= DistSq(end, e)
  }

  function NotAbove(a: Option<real>, b: Option<real>): bool {
    b.None? || (a.Some? && a.value <= b.value)
  }

  method FindUpstreamEnd(coords: seq<Point>, p: Point, others: seq<Geometry>, seg: nat) returns (startIsUpstream: bool)
    requires |coords| >= 2
    ensures startIsUpstream <==> StartIsUpstream(coords, p, others, seg)
  {
    var start, end := coords[0], coords[|coords| - 1];
    var m, all := EndDistances(start, end, others);
    if |others| == 0 {
      return DistSq(start, p) >= DistSq(end, p) || seg > 0;
    }
    startIsUpstream := NotAbove(m.start, m.end);
    LeastCompares(start, end, all, m);
    forall e ensures e in all <==> IsEnd(others, e) {
    }
  }

  lemma LeastCompares(start: Point, end: Point, all: set<Point>, m: Nearness)
    requires Least(start, all, m.start) && Least(end, all, m.end)
    ensures NotAbove(m.start, m.end)
            <==> forall e :: e in all ==> exists f :: f in all && DistSq(start, f) <= DistSq(end, e)
  {
    if m.start.Some? && m.end.Some? {
      var f :| f in all && DistSq(start, f) == m.start.value;
      var e :| e in all && DistSq(end, e) == m.end.value;
    }
  }

  // ---- Truncation ---------------------------------------------------------------------

  function Reversed(s: seq<Point>): (r: seq<Point>)
    ensures |r| == |s| && forall i :: 0 <= i < |s| ==> r[i] == s[|s| - 1 - i]
  {
    seq(|s|, i requires 0 <= i < |s| => s[|s| - 1 - i])
  }

  /** The vertices on the upstream side of a segment, ending at the segment. */
  ghost function Kept(coords: seq<Point>, p: Point, others: seq<Geometry>, seg: nat): (kept: seq<Point>)
    requires seg + 1 < |coords|
    ensures kept != []
    ensures kept[|kept| - 1] == if StartIsUpstream(coords, p, others, seg) then coords[seg] else coords[seg + 1]
  {
    if StartIsUpstream(coords, p, others, seg) then coords[..seg + 1] else Reversed(coords[seg + 1..])
  }

  /** A prefix of the line, or a suffix reversed, up to the segment nearest to the outlet, and then the outlet. */
  ghost predicate Truncates(coords: seq<Point>, p: Point, others: seq<Geometry>, r: seq<Point>) {
    if |coords| < 2 then r == coords
    else exists seg :: IsNearestSegment(coords, p, seg) && r == Kept(coords, p, others, seg) + [p]
  }

  lemma NearestUnique(coords: seq<Point>, p: Point, a: nat, b: nat)
    requires IsNearestSegment(coords, p, a) && IsNearestSegment(coords, p, b)
    ensures a == b
  {
    assert SegmentDistance(coords, p, a) <= SegmentDistance(coords, p, b);
    assert SegmentDistance(coords, p, b) <= SegmentDistance(coords, p, a);
  }

  /**
    Without other reaches, the truncated line starts at the line's first vertex when the outlet is
    nearest to a later segment or no nearer to the start than to the end, and at the last otherwise.
   */
  lemma AloneStartsUpstream(coords: seq<Point>, p: Point, r: seq<Point>, seg: nat)
    requires |coords| >= 2 && Truncates(coords, p, [], r) && IsNearestSegment(coords, p, seg)
    ensures r != []
    ensures r[0] == if seg > 0 || DistSq(coords[0], p) >= DistSq(coords[|coords| - 1], p) then coords[0]
                    else coords[|coords| - 1]
  {
    var own: nat :| IsNearestSegment(coords, p, own) && r == Kept(coords, p, [], own) + [p];
    NearestUnique(coords, p, seg, own);
  }

  /** `truncate_terminal_reach` on one line. */
  method TruncateLine(coords: seq<Point>, p: Point, others: seq<Geometry>) returns (r: seq<Point>)
    ensures Truncates(coords, p, others, r)
  {
    if |coords| < 2 {
      return coords;
    }
    var seg := NearestSegment(coords, p);
    var startIsUpstream := FindUpstreamEnd(coords, p, others, seg);
    if startIsUpstream {
      r := coords[..seg + 1];
    } else {
      r := Reversed(coords[seg + 1..]);
    }
    r := r + [p];
  }

  function NonEmpty(lines: seq<seq<Point>>): seq<seq<Point>> {
    if lines == [] then []
    else
      var front := NonEmpty(lines[..|lines| - 1]);
      if lines[|lines| - 1] == [] then front else front + [lines[|lines| - 1]]
  }

  /** The non-empty lines, each truncated; a single one is no longer a collection. */
  ghost predicate TruncatesGeometry(g: Geometry, p: Point, others: seq<Geometry>, r: Geometry) {
    match g
    case LineString(coords) => r.LineString? && Truncates(coords, p, others, r.coords)
    case MultiLineString(lines) =>
      var kept := NonEmpty(lines);
      var truncated := if r.LineString? then [r.coords] else if r.MultiLineString? then r.lines else [];
      && !r.Other? && (r.LineString? <==> |kept| == 1) && |truncated| == |kept|
      && forall i :: 0 <= i < |kept| ==> Truncates(kept[i], p, others, truncated[i])
    case Other(_) => r == g
  }

  /** `truncate_terminal_reach` */
  method TruncateTerminalReach(g: Geometry, p: Point, others: seq<Geometry>) returns (r: Geometry)
    ensures TruncatesGeometry(g, p, others, r)
  {
    match g
    case LineString(coords) =>
      var line := TruncateLine(coords, p, others);
      r := LineString(line);
    case MultiLineString(lines) =>
      var kept: seq<seq<Point>> := [];
      for i := 0 to |lines|
        invariant |kept| == |NonEmpty(lines[..i])|
        invariant forall j :: 0 <= j < |kept| ==> Truncates(NonEmpty(lines[..i])[j], p, others, kept[j])
      {
        assert lines[..i + 1][..i] == lines[..i];
        var line := TruncateLine(lines[i], p, others);
        if |line| > 0 {
          kept := kept + [line];
        }
      }
      assert lines[..|lines|] == lines;
      if |kept| == 1 {
        r := LineString(kept[0]);
      } else {
        r := MultiLineString(kept);
      }
    case Other(_) =>
      r := g;
  }

  // ---- The truncated reach lies on the reach ------------------------------------------

  /** `q` is a point of the segment. */
  ghost predicate OnSegment(a: Point, b: Point, q: Point) {
    exists s :: 0.0 <= s <= 1.0 && q == On(a, b, s)
  }

  /** `q` is a point of some segment of the line. */
  ghost predicate OnLine(coords: seq<Point>, q: Point) {
    exists i :: 0 <= i < |coords| - 1 && OnSegment(coords[i], coords[i + 1], q)
  }

  lemma ZeroDistance(p: Point)
    ensures DistSq(p, p) == 0.0
  {
  }

  lemma ProjectionIsOnSegment(p: Point, a: Point, b: Point)
    ensures OnSegment(a, b, Project(p, a, b))
  {
    ProjectionIsNearest(p, a, b, 0.0);
  }

  /** An outlet on the line is on its nearest segment. */
  lemma OutletOnNearest(coords: seq<Point>, p: Point, seg: nat)
    requires IsNearestSegment(coords, p, seg) && OnLine(coords, p)
    ensures OnSegment(coords[seg], coords[seg + 1], p)
  {
    var i: nat :| 0 <= i < |coords| - 1 && OnSegment(coords[i], coords[i + 1], p);
    var s :| 0.0 <= s <= 1.0 && p == On(coords[i], coords[i + 1], s);
    NearestIsGlobal(coords, p, seg, i, s);
    ZeroDistance(p);
    SamePoint(p, Project(p, coords[seg], coords[seg + 1]));
    ProjectionIsOnSegment(p, coords[seg], coords[seg + 1]);
  }

  lemma Within(u: real, t: real)
    requires 0.0 <= u <= 1.0 && 0.0 <= t <= 1.0
    ensures 0.0 <= u * t <= 1.0
  {
    ProductOfSigns(u, t);
    ProductOfSigns(1.0 - u, t);
    assert (1.0 - u) * t == t - u * t;
  }

  /** Going part of the way to a point of a segment stays on the segment. */
  lemma PartWay(a: Point, b: Point, p: Point, u: real)
    requires OnSegment(a, b, p) && 0.0 <= u <= 1.0
    ensures OnSegment(a, b, On(a, p, u))
  {
    var t :| 0.0 <= t <= 1.0 && p == On(a, b, t);
    Within(u, t);
    PartWayPoint(a, b, p, t, u, u * t);
  }

  lemma PartWayPoint(a: Point, b: Point, p: Point, t: real, u: real, v: real)
    requires p == On(a, b, t) && v == u * t
    ensures On(a, p, u) == On(a, b, v)
  {
    var x := PartWayCoordinate(a.x, b.x, p.x, t, u, v);
    var y := PartWayCoordinate(a.y, b.y, p.y, t, u, v);
    assert On(a, p, u) == Point(x, y);
    assert On(a, b, v) == Point(x, y);
  }

  lemma PartWayCoordinate(a: real, b: real, p: real, t: real, u: real, v: real) returns (x: real)
    requires p == a + t * (b - a) && v == u * t
    ensures x == a + u * (p - a) && x == a + v * (b - a)
  {
    var d := b - a;
    assert p - a == t * d;
    assert u * (t * d) == u * t * d;
    x := a + u * (p - a);
  }

  lemma Turned(a: Point, b: Point, q: Point)
    requires OnSegment(a, b, q)
    ensures OnSegment(b, a, q)
  {
    var t :| 0.0 <= t <= 1.0 && q == On(a, b, t);
    TurnedCoordinate(a.x, b.x, t);
    TurnedCoordinate(a.y, b.y, t);
    assert q == On(b, a, 1.0 - t);
  }

  lemma TurnedCoordinate(a: real, b: real, t: real)
    ensures a + t * (b - a) == b + (1.0 - t) * (a - b)
  {
    assert (1.0 - t) * (a - b) == (a - b) - t * (a - b);
    assert t * (a - b) == - (t * (b - a));
  }

  /** Between a vertex of a segment and an outlet on it there is nothing but that segment. */
  lemma TipStaysOn(a: Point, b: Point, p: Point, q: Point)
    requires OnSegment(a, b, p)
    ensures OnSegment(a, p, q) ==> OnSegment(a, b, q)
    ensures OnSegment(b, p, q) ==> OnSegment(a, b, q)
  {
    if OnSegment(a, p, q) {
      var u :| 0.0 <= u <= 1.0 && q == On(a, p, u);
      PartWay(a, b, p, u);
    }
    if OnSegment(b, p, q) {
      var u :| 0.0 <= u <= 1.0 && q == On(b, p, u);
      Turned(a, b, p);
      PartWay(b, a, p, u);
      Turned(b, a, q);
    }
  }

  lemma SegmentOfLine(coords: seq<Point>, k: nat, q: Point)
    requires k + 1 < |coords| && (OnSegment(coords[k], coords[k + 1], q) || OnSegment(coords[k + 1], coords[k], q))
    ensures OnLine(coords, q)
  {
    if OnSegment(coords[k + 1], coords[k], q) {
      Turned(coords[k + 1], coords[k], q);
    }
    assert OnSegment(coords[k], coords[k + 1], q);
  }

  /** Every segment of the truncated line but the last is a segment of the line. */
  lemma BodySegment(coords: seq<Point>, p: Point, seg: nat, fromStart: bool, i: nat, q: Point)
    requires seg + 1 < |coords|
    requires var r := (if fromStart then coords[..seg + 1] else Reversed(coords[seg + 1..])) + [p];
             i + 2 < |r| && OnSegment(r[i], r[i + 1], q)
    ensures OnLine(coords, q)
  {
    var k := if fromStart then i else |coords| - 2 - i;
    if !fromStart {
      var suffix := coords[seg + 1..];
      assert Reversed(suffix)[i] == suffix[|suffix| - 1 - i] == coords[k + 1];
      assert Reversed(suffix)[i + 1] == suffix[|suffix| - 2 - i] == coords[k];
    }
    SegmentOfLine(coords, k, q);
  }

  /** With the outlet on the nearest segment, the last one lies on that segment. */
  lemma TruncatedSegment(coords: seq<Point>, p: Point, seg: nat, fromStart: bool, i: nat, q: Point)
    requires seg + 1 < |coords| && OnSegment(coords[seg], coords[seg + 1], p)
    requires var r := (if fromStart then coords[..seg + 1] else Reversed(coords[seg + 1..])) + [p];
             i + 1 < |r| && OnSegment(r[i], r[i + 1], q)
    ensures OnLine(coords, q)
  {
    var r := (if fromStart then coords[..seg + 1] else Reversed(coords[seg + 1..])) + [p];
    if i + 2 < |r| {
      BodySegment(coords, p, seg, fromStart, i, q);
    } else {
      TipStaysOn(coords[seg], coords[seg + 1], p, q);
      SegmentOfLine(coords, seg, q);
    }
  }

  /** When the outlet lies on the reach, every point of the truncated reach does. */
  lemma TruncatedReachIsOnReach(coords: seq<Point>, p: Point, others: seq<Geometry>, r: seq<Point>, q: Point)
    requires |coords| >= 2 && Truncates(coords, p, others, r) && OnLine(coords, p) && OnLine(r, q)
    ensures OnLine(coords, q)
  {
    var seg: nat :| IsNearestSegment(coords, p, seg) && r == Kept(coords, p, others, seg) + [p];
    OutletOnNearest(coords, p, seg);
    var i: nat :| 0 <= i < |r| - 1 && OnSegment(r[i], r[i + 1], q);
    TruncatedSegment(coords, p, seg, StartIsUpstream(coords, p, others, seg), i, q);
  }

  /** The truncated line runs on the line exactly when the outlet lies on it. */
  lemma TruncatedLineStaysOnLine(coords: seq<Point>, p: Point, others: seq<Geometry>, r: seq<Point>)
    requires |coords| >= 2 && Truncates(coords, p, others, r)
    ensures (forall q :: OnLine(r, q) ==> OnLine(coords, q)) <==> OnLine(coords, p)
  {
    EndsAtOutlet(coords, p, others, r);
    if OnLine(coords, p) {
      forall q | OnLine(r, q) ensures OnLine(coords, q) {
        TruncatedReachIsOnReach(coords, p, others, r, q);
      }
    }
  }

  lemma EndsAtOutlet(coords: seq<Point>, p: Point, others: seq<Geometry>, r: seq<Point>)
    requires |coords| >= 2 && Truncates(coords, p, others, r)
    ensures |r| >= 2 && r[|r| - 1] == p && OnLine(r, p)
  {
    var seg: nat :| IsNearestSegment(coords, p, seg) && r == Kept(coords, p, others, seg) + [p];
    EndOfSegment(r[|r| - 2], p);
    var i := |r| - 2;
    assert OnSegment(r[i], r[i + 1], p);
  }

  lemma EndOfSegment(a: Point, b: Point)
    ensures OnSegment(a, b, b)
  {
    assert On(a, b, 1.0) == b;
  }
}
