/**
  Truncating a whole reach, of one part or many: when the result stays on the reach.

  The part of the result that may leave the reach is the last segment of each part, from the
  last vertex kept to the outlet.  It stays on the reach when the segments of the reach cover
  it, which takes finitely many comparisons to decide.
 */
module ReachTips {
  import opened Prelude
  import opened Reach

  // ---- The whole geometry -------------------------------------------------------------

  function Lines(g: Geometry): seq<seq<Point>> {
    match g
    case LineString(coords) => [coords]
    case MultiLineString(lines) => lines
    case Other(_) => []
  }

  ghost predicate OnGeometry(g: Geometry, q: Point) {
    exists line :: line in Lines(g) && OnLine(line, q)
  }

  // ---- Covering a segment with segments -----------------------------------------------

  datatype Segment = Segment(from: Point, to: Point) {
    ghost predicate Has(q: Point) {
      OnSegment(from, to, q)
    }
  }

  /** Zero exactly when `c` lies on the line through `a` and `p`. */
  function Cross(a: Point, p: Point, c: Point): real {
    (p.x - a.x) * (c.y - a.y) - (p.y - a.y) * (c.x - a.x)
  }

  /** Where along the way from `a` to `p` a point of their line stands. */
  function Place(a: Point, p: Point, c: Point): real
    requires LengthSq(a, p) != 0.0
  {
    Dot(c, a, p) / LengthSq(a, p)
  }

  /** The segment runs along the line through `a` and `p`. */
  predicate Along(a: Point, p: Point, s: Segment) {
    LengthSq(a, p) != 0.0 && Cross(a, p, s.from) == 0.0 && Cross(a, p, s.to) == 0.0
  }

  function Low(a: Point, p: Point, s: Segment): real
    requires Along(a, p, s)
  {
    var u, v := Place(a, p, s.from), Place(a, p, s.to);
    if u <= v then u else v
  }

  function High(a: Point, p: Point, s: Segment): real
    requires Along(a, p, s)
  {
    var u, v := Place(a, p, s.from), Place(a, p, s.to);
    if u <= v then v else u
  }

  /** Some segment along the way covers the place `g` and goes on from there. */
  predicate GoesOn(segments: seq<Segment>, a: Point, p: Point, g: real) {
    exists k :: 0 <= k < |segments| && Along(a, p, segments[k])
                && Low(a, p, segments[k]) <= g < High(a, p, segments[k])
  }

  /** The way from `a` to `p` goes on from its start and from every place where one of the segments ends. */
  predicate NoGap(segments: seq<Segment>, a: Point, p: Point) {
    && GoesOn(segments, a, p, 0.0)
    && forall k :: 0 <= k < |segments| && Along(a, p, segments[k]) && 0.0 <= High(a, p, segments[k]) < 1.0 ==>
         GoesOn(segments, a, p, High(a, p, segments[k]))
  }

  ghost predicate Covered(segments: seq<Segment>, q: Point) {
    exists k :: 0 <= k < |segments| && segments[k].Has(q)
  }

  lemma Cancel(x: real, y: real, n: real)
    requires n * x == n * y && n != 0.0
    ensures x == y
  {
    assert n * (x - y) == 0.0;
  }

  lemma PlaceOnLine(a: Point, p: Point, c: Point)
    requires LengthSq(a, p) != 0.0 && Cross(a, p, c) == 0.0
    ensures c == On(a, p, Place(a, p, c))
  {
    var t := Place(a, p, c);
    PlaceCoordinate(p.x - a.x, p.y - a.y, c.x - a.x, c.y - a.y, t);
    assert c == Point(a.x + (c.x - a.x), a.y + (c.y - a.y));
  }

  lemma PlaceCoordinate(ux: real, uy: real, x: real, y: real, t: real)
    requires ux * ux + uy * uy != 0.0 && ux * y - uy * x == 0.0
    requires t == (x * ux + y * uy) / (ux * ux + uy * uy)
    ensures t * ux == x && t * uy == y
  {
    var n := ux * ux + uy * uy;
    assert n * t == x * ux + y * uy;
    Scaled(n, t, ux, x * ux + y * uy);
    Scaled(n, t, uy, x * ux + y * uy);
    Shared(ux, uy, x, y);
    Cancel(t * ux, x, n);
    Cancel(t * uy, y, n);
  }

  lemma Scaled(n: real, t: real, u: real, d: real)
    requires n * t == d
    ensures n * (t * u) == d * u
  {
    assert n * (t * u) == (n * t) * u;
  }

  lemma Shared(ux: real, uy: real, x: real, y: real)
    requires ux * y == uy * x
    ensures (x * ux + y * uy) * ux == (ux * ux + uy * uy) * x
    ensures (x * ux + y * uy) * uy == (ux * ux + uy * uy) * y
  {
    assert y * uy * ux == (ux * y) * uy == (uy * x) * uy;
    assert x * ux * uy == (uy * x) * ux == (ux * y) * ux;
  }

  lemma ApartHasLength(a: Point, p: Point)
    ensures LengthSq(a, p) == 0.0 <==> a == p
  {
    SegmentHasLength(a, p);
  }

  lemma SamePlace(a: Point, p: Point, t: real, u: real)
    requires a != p && On(a, p, t) == On(a, p, u)
    ensures t == u
  {
    var x, y := p.x - a.x, p.y - a.y;
    if x != 0.0 {
      assert x * t == x * u;
      Cancel(t, u, x);
    } else {
      assert y * t == y * u;
      Cancel(t, u, y);
    }
  }

  lemma CrossOfOn(a: Point, p: Point, t: real)
    ensures Cross(a, p, On(a, p, t)) == 0.0
  {
    CrossOfScaled(p.x - a.x, p.y - a.y, t);
  }

  lemma CrossOfScaled(x: real, y: real, t: real)
    ensures x * (t * y) - y * (t * x) == 0.0
  {
    assert x * (t * y) == t * (x * y) == y * (t * x);
  }

  lemma CrossIsLinear(a: Point, p: Point, c: Point, d: Point, s: real)
    ensures Cross(a, p, On(c, d, s)) == Cross(a, p, c) + s * (Cross(a, p, d) - Cross(a, p, c))
  {
    LinearTerm(p.x - a.x, c.y - a.y, d.y - c.y, s);
    LinearTerm(p.y - a.y, c.x - a.x, d.x - c.x, s);
    var u, v := (p.x - a.x) * (d.y - c.y), (p.y - a.y) * (d.x - c.x);
    assert s * (u - v) == s * u - s * v;
    Difference(p.x - a.x, c.y - a.y, d.y - a.y);
    Difference(p.y - a.y, c.x - a.x, d.x - a.x);
    assert Cross(a, p, d) - Cross(a, p, c) == u - v;
  }

  lemma LinearTerm(n: real, x: real, y: real, s: real)
    ensures n * (x + s * y) == n * x + s * (n * y)
  {
    assert n * (s * y) == s * (n * y);
  }

  lemma Difference(n: real, x: real, y: real)
    ensures n * y - n * x == n * (y - x)
  {
  }

  lemma PartsDiffer(a: Point, p: Point, s: Segment, t: real, u: real, i: real, j: real)
    requires a != p && t != u
    requires On(a, p, t) == On(s.from, s.to, i) && On(a, p, u) == On(s.from, s.to, j)
    ensures i != j
  {
    if i == j {
      SamePlace(a, p, t, u);
    }
  }

  /** `x + i * (y - x)` is zero wherever the segment meets the line. */
  ghost predicate ZeroWhereTheyMeet(a: Point, p: Point, s: Segment, x: real, y: real) {
    forall t, i :: On(a, p, t) == On(s.from, s.to, i) ==> x + i * (y - x) == 0.0
  }

  lemma CrossesAreZero(a: Point, p: Point, s: Segment) returns (x: real, y: real)
    requires a != p
    ensures ZeroWhereTheyMeet(a, p, s, x, y)
    ensures x == 0.0 && y == 0.0 ==> Along(a, p, s)
  {
    x, y := Cross(a, p, s.from), Cross(a, p, s.to);
    ApartHasLength(a, p);
    forall t, i | On(a, p, t) == On(s.from, s.to, i) ensures x + i * (y - x) == 0.0 {
      CrossOfOn(a, p, t);
      CrossIsLinear(a, p, s.from, s.to, i);
    }
  }

  lemma Meeting(a: Point, p: Point, s: Segment, t: real, x: real, y: real) returns (i: real)
    requires s.Has(On(a, p, t)) && ZeroWhereTheyMeet(a, p, s, x, y)
    ensures On(a, p, t) == On(s.from, s.to, i) && x + i * (y - x) == 0.0
  {
    i :| 0.0 <= i <= 1.0 && On(a, p, t) == On(s.from, s.to, i);
  }

  /** Two points of the segment on the line are two zeros. */
  lemma TwoMeetings(a: Point, p: Point, s: Segment, t: real, u: real, x: real, y: real) returns (i: real, j: real)
    requires a != p && t != u && s.Has(On(a, p, t)) && s.Has(On(a, p, u)) && ZeroWhereTheyMeet(a, p, s, x, y)
    ensures i != j && x + i * (y - x) == 0.0 && x + j * (y - x) == 0.0
  {
    i := Meeting(a, p, s, t, x, y);
    j := Meeting(a, p, s, u, x, y);
    PartsDiffer(a, p, s, t, u, i, j);
  }

  /** A segment with two points on the line runs along it. */
  lemma TwoPointsAlong(a: Point, p: Point, s: Segment, t: real, u: real)
    requires a != p && t != u && s.Has(On(a, p, t)) && s.Has(On(a, p, u))
    ensures Along(a, p, s)
  {
    var x, y := CrossesAreZero(a, p, s);
    var i, j := TwoMeetings(a, p, s, t, u, x, y);
    TwoZeros(x, y - x, i, j);
  }

  lemma TwoZeros(x: real, slope: real, i: real, j: real)
    requires x + i * slope == 0.0 && x + j * slope == 0.0 && i != j
    ensures x == 0.0 && slope == 0.0
  {
    assert (i - j) * slope == 0.0 == (i - j) * 0.0;
    Cancel(slope, 0.0, i - j);
  }

  lemma OnOfPlaces(a: Point, p: Point, u: real, v: real, s: real)
    ensures On(On(a, p, u), On(a, p, v), s) == On(a, p, u + s * (v - u))
  {
    OnCoordinate(p.x - a.x, u, v, s);
    OnCoordinate(p.y - a.y, u, v, s);
    assert On(On(a, p, u), On(a, p, v), s).x == a.x + (u * (p.x - a.x) + s * (v * (p.x - a.x) - u * (p.x - a.x)));
    assert On(On(a, p, u), On(a, p, v), s).y == a.y + (u * (p.y - a.y) + s * (v * (p.y - a.y) - u * (p.y - a.y)));
  }

  lemma OnCoordinate(d: real, u: real, v: real, s: real)
    ensures u * d + s * (v * d - u * d) == (u + s * (v - u)) * d
  {
    assert v * d - u * d == (v - u) * d;
    assert s * ((v - u) * d) == (s * (v - u)) * d;
  }

  /** A number between two others is a part of the way from one to the other, and the reverse. */
  lemma PartOfWay(u: real, v: real, s: real)
    requires 0.0 <= s <= 1.0
    ensures (if u <= v then u else v) <= u + s * (v - u) <= (if u <= v then v else u)
  {
    var d := if u <= v then v - u else u - v;
    ProductOfSigns(s, d);
    ProductOfSigns(1.0 - s, d);
    assert (1.0 - s) * d == d - s * d;
    assert s * (u - v) == - (s * (v - u));
  }

  lemma WayOfPart(u: real, v: real, t: real) returns (s: real)
    requires (if u <= v then u else v) <= t <= (if u <= v then v else u)
    ensures 0.0 <= s <= 1.0 && t == u + s * (v - u)
  {
    if u == v {
      s := 0.0;
    } else {
      s := (t - u) / (v - u);
      assert s * (v - u) == t - u;
      if s < 0.0 {
        ProductIsPositive(if v > u then -s else s, v - u, (if v > u then -s else s) * (v - u));
      }
      if s > 1.0 {
        ProductIsPositive(if v > u then s - 1.0 else 1.0 - s, v - u, (if v > u then s - 1.0 else 1.0 - s) * (v - u));
      }
    }
  }

  /** A segment along the way covers the places from its low to its high one. */
  lemma AlongCovers(a: Point, p: Point, s: Segment, t: real)
    requires Along(a, p, s)
    ensures s.Has(On(a, p, t)) <==> Low(a, p, s) <= t <= High(a, p, s)
  {
    var u, v := Place(a, p, s.from), Place(a, p, s.to);
    PlaceOnLine(a, p, s.from);
    PlaceOnLine(a, p, s.to);
    if s.Has(On(a, p, t)) {
      var i :| 0.0 <= i <= 1.0 && On(a, p, t) == On(s.from, s.to, i);
      OnOfPlaces(a, p, u, v, i);
      SamePlace(a, p, t, u + i * (v - u));
      PartOfWay(u, v, i);
    }
    if Low(a, p, s) <= t <= High(a, p, s) {
      var i := WayOfPart(u, v, t);
      OnOfPlaces(a, p, u, v, i);
      assert On(a, p, t) == On(s.from, s.to, i);
    }
  }

  /** The segment runs along the way and ends on it, no later than `t`. */
  predicate EndsWithin(a: Point, p: Point, s: Segment, t: real) {
    Along(a, p, s) && 0.0 <= High(a, p, s) <= t && High(a, p, s) < 1.0
  }

  /** The last place up to `t` where a segment ends, or the start. */
  lemma {:induction false} LastStop(segments: seq<Segment>, a: Point, p: Point, t: real, n: nat) returns (g: real)
    requires n <= |segments| && 0.0 <= t <= 1.0
    ensures 0.0 <= g <= t
    ensures g == 0.0 || exists k :: 0 <= k < n && Along(a, p, segments[k]) && High(a, p, segments[k]) == g < 1.0
    ensures forall k :: 0 <= k < n && EndsWithin(a, p, segments[k], t) ==> High(a, p, segments[k]) <= g
  {
    g := 0.0;
    if n > 0 {
      g := LastStop(segments, a, p, t, n - 1);
      var s := segments[n - 1];
      if EndsWithin(a, p, s, t) && g <= High(a, p, s) {
        g := High(a, p, s);
      }
    }
  }

  /** Without a gap every place is covered. */
  lemma PlaceIsCovered(segments: seq<Segment>, a: Point, p: Point, t: real)
    requires a != p && NoGap(segments, a, p) && 0.0 <= t <= 1.0
    ensures Covered(segments, On(a, p, t))
  {
    var g := LastStop(segments, a, p, t, |segments|);
    assert GoesOn(segments, a, p, g);
    var k :| 0 <= k < |segments| && Along(a, p, segments[k])
             && Low(a, p, segments[k]) <= g < High(a, p, segments[k]);
    AlongCovers(a, p, segments[k], t);
  }

  /** When nothing goes on from `g`, the next stretch is free of the first `n` segments. */
  lemma {:induction false} ClearAhead(segments: seq<Segment>, a: Point, p: Point, g: real, n: nat) returns (t: real)
    requires a != p && 0.0 <= g < 1.0 && n <= |segments| && !GoesOn(segments, a, p, g)
    ensures g < t <= 1.0
    ensures forall k, u :: 0 <= k < n && g < u <= t ==> !segments[k].Has(On(a, p, u))
  {
    t := 1.0;
    if n > 0 {
      t := ClearAhead(segments, a, p, g, n - 1);
      var s := segments[n - 1];
      if u: real :| g < u <= t && s.Has(On(a, p, u)) {
        t := ClearOf(segments, n - 1, a, p, g, u);
      }
    }
  }

  lemma ClearOf(segments: seq<Segment>, k: nat, a: Point, p: Point, g: real, u: real) returns (t: real)
    requires a != p && k < |segments| && !GoesOn(segments, a, p, g)
    requires g < u && segments[k].Has(On(a, p, u))
    ensures g < t <= u && forall v :: g < v <= t ==> !segments[k].Has(On(a, p, v))
  {
    var s := segments[k];
    if Along(a, p, s) {
      AlongCovers(a, p, s, u);
      t := (g + Low(a, p, s)) / 2.0;
      forall v | g < v <= t ensures !s.Has(On(a, p, v)) {
        AlongCovers(a, p, s, v);
      }
    } else {
      t := (g + u) / 2.0;
      forall v | g < v <= t ensures !s.Has(On(a, p, v)) {
        if s.Has(On(a, p, v)) {
          TwoPointsAlong(a, p, s, u, v);
        }
      }
    }
  }

  /** The way from one point to another is covered by finitely many segments exactly when it has no gap. */
  lemma CoveredIffNoGap(segments: seq<Segment>, a: Point, p: Point)
    requires a != p
    ensures (forall q :: OnSegment(a, p, q) ==> Covered(segments, q)) <==> NoGap(segments, a, p)
  {
    if NoGap(segments, a, p) {
      forall q | OnSegment(a, p, q) ensures Covered(segments, q) {
        var t :| 0.0 <= t <= 1.0 && q == On(a, p, t);
        PlaceIsCovered(segments, a, p, t);
      }
    } else {
      var g :| 0.0 <= g < 1.0 && !GoesOn(segments, a, p, g);
      var t := ClearAhead(segments, a, p, g, |segments|);
      assert OnSegment(a, p, On(a, p, t)) && !Covered(segments, On(a, p, t));
    }
  }

  // ---- The tips of a truncated geometry -----------------------------------------------

  function SegmentsOfLine(line: seq<Point>): seq<Segment> {
    if |line| < 2 then [] else seq(|line| - 1, i requires 0 <= i < |line| - 1 => Segment(line[i], line[i + 1]))
  }

  function SegmentsOf(lines: seq<seq<Point>>): seq<Segment> {
    if lines == [] then [] else SegmentsOf(lines[..|lines| - 1]) + SegmentsOfLine(lines[|lines| - 1])
  }

  lemma LineIsCovered(line: seq<Point>, q: Point)
    ensures OnLine(line, q) <==> Covered(SegmentsOfLine(line), q)
  {
    var segments := SegmentsOfLine(line);
    if OnLine(line, q) {
      var i: nat :| 0 <= i < |line| - 1 && OnSegment(line[i], line[i + 1], q);
      assert segments[i] == Segment(line[i], line[i + 1]);
    }
    if Covered(segments, q) {
      var i: nat :| 0 <= i < |segments| && segments[i].Has(q);
      assert segments[i] == Segment(line[i], line[i + 1]);
    }
  }

  lemma CoveredByEither(a: seq<Segment>, b: seq<Segment>, q: Point)
    ensures Covered(a + b, q) <==> Covered(a, q) || Covered(b, q)
  {
    if Covered(a, q) {
      var k :| 0 <= k < |a| && a[k].Has(q);
      assert (a + b)[k].Has(q);
    }
    if Covered(b, q) {
      var k :| 0 <= k < |b| && b[k].Has(q);
      assert (a + b)[|a| + k].Has(q);
    }
  }

  lemma {:induction false} LinesAreCovered(lines: seq<seq<Point>>, q: Point)
    ensures (exists line :: line in lines && OnLine(line, q)) <==> Covered(SegmentsOf(lines), q)
  {
    if lines != [] {
      var last := |lines| - 1;
      LinesAreCovered(lines[..last], q);
      LineIsCovered(lines[last], q);
      CoveredByEither(SegmentsOf(lines[..last]), SegmentsOfLine(lines[last]), q);
      assert lines == lines[..last] + [lines[last]];
    }
  }

  /** The last vertex kept of a part. */
  ghost function LastKept(coords: seq<Point>, p: Point, others: seq<Geometry>, seg: nat): Point
    requires seg + 1 < |coords|
  {
    var kept := Kept(coords, p, others, seg);
    kept[|kept| - 1]
  }

  /** From the last vertex kept of each part to the outlet the segments of the reach leave no gap. */
  ghost predicate TipsOnReach(g: Geometry, p: Point, others: seq<Geometry>) {
    forall line, seg :: line in Lines(g) && IsNearestSegment(line, p, seg) ==>
      var a := LastKept(line, p, others, seg);
      a == p || NoGap(SegmentsOf(Lines(g)), a, p)
  }

  /** Every point from the last vertex kept of each part to the outlet is a point of the reach. */
  ghost predicate TipsRunOnReach(g: Geometry, p: Point, others: seq<Geometry>) {
    forall line, seg, q ::
      line in Lines(g) && IsNearestSegment(line, p, seg) && OnTip(line, p, others, seg, q) ==> OnGeometry(g, q)
  }

  ghost predicate OnTip(coords: seq<Point>, p: Point, others: seq<Geometry>, seg: nat, q: Point)
    requires seg + 1 < |coords|
  {
    OnSegment(LastKept(coords, p, others, seg), p, q)
  }

  /** One tip is on the reach exactly when it leaves no gap. */
  lemma TipIsCovered(g: Geometry, p: Point, others: seq<Geometry>, line: seq<Point>, seg: nat)
    requires line in Lines(g) && IsNearestSegment(line, p, seg)
    ensures var a := LastKept(line, p, others, seg);
            (forall q :: OnTip(line, p, others, seg, q) ==> OnGeometry(g, q))
            <==> a == p || NoGap(SegmentsOf(Lines(g)), a, p)
  {
    var a := LastKept(line, p, others, seg);
    forall q ensures OnGeometry(g, q) <==> Covered(SegmentsOf(Lines(g)), q) {
      LinesAreCovered(Lines(g), q);
    }
    if a == p {
      VertexOnLine(line, p, others, seg);
    } else {
      CoveredIffNoGap(SegmentsOf(Lines(g)), a, p);
    }
  }

  /** A tip of no length is a vertex of the reach. */
  lemma VertexOnLine(line: seq<Point>, p: Point, others: seq<Geometry>, seg: nat)
    requires IsNearestSegment(line, p, seg) && LastKept(line, p, others, seg) == p
    ensures forall q :: OnTip(line, p, others, seg, q) ==> OnLine(line, q)
  {
    EndOfSegment(line[seg], line[seg + 1]);
    EndOfSegment(line[seg + 1], line[seg]);
    forall q | OnTip(line, p, others, seg, q) ensures OnLine(line, q) {
      var t :| 0.0 <= t <= 1.0 && q == On(p, p, t);
      assert q == p;
      SegmentOfLine(line, seg, p);
    }
  }

  lemma TipsAreCovered(g: Geometry, p: Point, others: seq<Geometry>)
    ensures TipsRunOnReach(g, p, others) <==> TipsOnReach(g, p, others)
  {
    forall line, seg | line in Lines(g) && IsNearestSegment(line, p, seg)
      ensures var a := LastKept(line, p, others, seg);
              (forall q :: OnTip(line, p, others, seg, q) ==> OnGeometry(g, q))
              <==> a == p || NoGap(SegmentsOf(Lines(g)), a, p)
    {
      TipIsCovered(g, p, others, line, seg);
    }
  }

  lemma {:induction false} NonEmptyMembers(lines: seq<seq<Point>>, line: seq<Point>)
    ensures line in NonEmpty(lines) <==> line in lines && line != []
  {
    if lines != [] {
      var last := |lines| - 1;
      NonEmptyMembers(lines[..last], line);
      assert lines == lines[..last] + [lines[last]];
    }
  }

  /** Every line of the result is the truncation of a line of the geometry, unless the geometry has no lines. */
  lemma TruncatedFrom(g: Geometry, p: Point, others: seq<Geometry>, r: Geometry, line: seq<Point>)
    returns (coords: seq<Point>)
    requires TruncatesGeometry(g, p, others, r) && line in Lines(r)
    ensures coords in Lines(g) && Truncates(coords, p, others, line)
  {
    match g
    case LineString(own) =>
      coords := own;
    case MultiLineString(lines) =>
      var kept := NonEmpty(lines);
      var i :| 0 <= i < |Lines(r)| && Lines(r)[i] == line;
      coords := kept[i];
      NonEmptyMembers(lines, coords);
    case Other(_) =>
  }

  /** Every line of the geometry that has a segment is truncated to a line of the result. */
  lemma TruncatedTo(g: Geometry, p: Point, others: seq<Geometry>, r: Geometry, coords: seq<Point>)
    returns (line: seq<Point>)
    requires TruncatesGeometry(g, p, others, r) && coords in Lines(g) && coords != []
    ensures line in Lines(r) && Truncates(coords, p, others, line)
  {
    match g
    case LineString(_) =>
      line := r.coords;
    case MultiLineString(lines) =>
      NonEmptyMembers(lines, coords);
      var kept := NonEmpty(lines);
      var i :| 0 <= i < |kept| && kept[i] == coords;
      line := Lines(r)[i];
  }

  /** The tip of a truncated line starts at the last vertex kept. */
  lemma TipOfLine(coords: seq<Point>, p: Point, others: seq<Geometry>, r: seq<Point>, seg: nat, q: Point)
    requires IsNearestSegment(coords, p, seg) && Truncates(coords, p, others, r) && OnTip(coords, p, others, seg, q)
    ensures OnLine(r, q)
  {
    LineOfSegment(coords, p, others, r, seg);
    LastSegmentOf(Kept(coords, p, others, seg), p, q);
  }

  lemma LineOfSegment(coords: seq<Point>, p: Point, others: seq<Geometry>, r: seq<Point>, seg: nat)
    requires IsNearestSegment(coords, p, seg) && Truncates(coords, p, others, r)
    ensures r == Kept(coords, p, others, seg) + [p]
  {
    var own: nat :| IsNearestSegment(coords, p, own) && r == Kept(coords, p, others, own) + [p];
    NearestUnique(coords, p, seg, own);
  }

  lemma LastSegmentOf(kept: seq<Point>, p: Point, q: Point)
    requires kept != [] && OnSegment(kept[|kept| - 1], p, q)
    ensures OnLine(kept + [p], q)
  {
    var i: nat := |kept| - 1;
    assert OnSegment((kept + [p])[i], (kept + [p])[i + 1], q);
  }

  lemma PointOfPart(g: Geometry, p: Point, others: seq<Geometry>, r: Geometry, q: Point)
    requires TruncatesGeometry(g, p, others, r) && TipsRunOnReach(g, p, others) && OnGeometry(r, q)
    ensures OnGeometry(g, q)
  {
    var line :| line in Lines(r) && OnLine(line, q);
    var coords := TruncatedFrom(g, p, others, r, line);
    if |coords| >= 2 && !OnLine(coords, q) {
      PointOffLine(coords, p, others, line, q);
    }
  }

  /** What the truncated line adds to the line is its tip. */
  lemma PointOffLine(coords: seq<Point>, p: Point, others: seq<Geometry>, r: seq<Point>, q: Point)
    requires |coords| >= 2 && Truncates(coords, p, others, r) && OnLine(r, q) && !OnLine(coords, q)
    ensures exists seg :: IsNearestSegment(coords, p, seg) && OnTip(coords, p, others, seg, q)
  {
    var seg: nat :| IsNearestSegment(coords, p, seg) && r == Kept(coords, p, others, seg) + [p];
    var i: nat :| 0 <= i < |r| - 1 && OnSegment(r[i], r[i + 1], q);
    if i + 2 < |r| {
      BodySegment(coords, p, seg, StartIsUpstream(coords, p, others, seg), i, q);
    }
  }

  /**
    The truncated reach lies on the reach exactly when the segments of the reach leave no gap
    between the last vertex kept of each part and the outlet.
   */
  lemma TruncatedGeometryIsOnReach(g: Geometry, p: Point, others: seq<Geometry>, r: Geometry)
    requires TruncatesGeometry(g, p, others, r)
    ensures (forall q :: OnGeometry(r, q) ==> OnGeometry(g, q)) <==> TipsOnReach(g, p, others)
  {
    TipsAreCovered(g, p, others);
    if TipsRunOnReach(g, p, others) {
      forall q | OnGeometry(r, q) ensures OnGeometry(g, q) {
        PointOfPart(g, p, others, r, q);
      }
    } else {
      var coords, seg, q :|
        coords in Lines(g) && IsNearestSegment(coords, p, seg) && OnTip(coords, p, others, seg, q) && !OnGeometry(g, q);
      var line := TruncatedTo(g, p, others, r, coords);
      TipOfLine(coords, p, others, line, seg, q);
      assert OnGeometry(r, q);
    }
  }

  /** It does when the outlet lies on every part that has a segment. */
  lemma OutletOnEveryPart(g: Geometry, p: Point, others: seq<Geometry>, r: Geometry)
    requires TruncatesGeometry(g, p, others, r) && forall line :: line in Lines(g) && |line| >= 2 ==> OnLine(line, p)
    ensures forall q :: OnGeometry(r, q) ==> OnGeometry(g, q)
  {
    forall q | OnGeometry(r, q) ensures OnGeometry(g, q) {
      var line :| line in Lines(r) && OnLine(line, q);
      var coords := TruncatedFrom(g, p, others, r, line);
      if |coords| >= 2 {
        TruncatedReachIsOnReach(coords, p, others, line, q);
      }
    }
  }

  /** A reach of two parts, and an outlet that lies on the first only. */
  const SPLIT_REACH: Geometry :=
    MultiLineString([[Point(0.0, 0.0), Point(1.0, 0.0)], [Point(0.0, 5.0), Point(0.0, 6.0)]])

  lemma OffSplitReach()
    ensures !OnGeometry(SPLIT_REACH, Point(0.5, 3.0))
  {
    var q := Point(0.5, 3.0);
    forall line | line in Lines(SPLIT_REACH) ensures !OnLine(line, q) {
      assert line == [Point(0.0, 0.0), Point(1.0, 0.0)] || line == [Point(0.0, 5.0), Point(0.0, 6.0)];
    }
  }

  lemma OutletOnSplitReach()
    ensures OnGeometry(SPLIT_REACH, Point(1.0, 0.0))
  {
    var line := [Point(0.0, 0.0), Point(1.0, 0.0)];
    EndOfSegment(line[0], line[1]);
    assert OnLine(line, Point(1.0, 0.0));
    assert SPLIT_REACH.lines[0] == line;
    assert line in Lines(SPLIT_REACH);
  }

  lemma TruncatedParts(a: seq<Point>, b: seq<Point>, p: Point, r: Geometry)
    requires a != [] && b != [] && TruncatesGeometry(MultiLineString([a, b]), p, [], r)
    ensures r.MultiLineString? && |r.lines| == 2 && Truncates(b, p, [], r.lines[1])
  {
    NonEmptyNext([], a);
    NonEmptyNext([a], b);
    assert [] + [a] == [a] && [a] + [b] == [a, b];
  }

  lemma NonEmptyNext(lines: seq<seq<Point>>, line: seq<Point>)
    requires line != []
    ensures NonEmpty(lines + [line]) == NonEmpty(lines) + [line]
  {
    assert (lines + [line])[..|lines|] == lines;
  }

  /** The second part is pinned to the outlet too, by a segment that is not part of the reach. */
  lemma SplitReachGetsSpur(r: Geometry)
    requires TruncatesGeometry(SPLIT_REACH, Point(1.0, 0.0), [], r)
    ensures OnGeometry(SPLIT_REACH, Point(1.0, 0.0))
    ensures OnGeometry(r, Point(0.5, 3.0)) && !OnGeometry(SPLIT_REACH, Point(0.5, 3.0))
  {
    OffSplitReach();
    OutletOnSplitReach();
    TruncatedParts([Point(0.0, 0.0), Point(1.0, 0.0)], [Point(0.0, 5.0), Point(0.0, 6.0)], Point(1.0, 0.0), r);
    SecondPart([Point(0.0, 5.0), Point(0.0, 6.0)], Point(1.0, 0.0), r.lines[1]);
    SpurPoint(r.lines[1]);
  }

  lemma SpurPoint(line: seq<Point>)
    requires line == [Point(0.0, 6.0), Point(1.0, 0.0)]
    ensures OnLine(line, Point(0.5, 3.0))
  {
    assert On(Point(0.0, 6.0), Point(1.0, 0.0), 0.5) == Point(0.5, 3.0);
    assert OnSegment(line[0], line[1], Point(0.5, 3.0));
  }

  lemma FartherStart(b: seq<Point>, p: Point)
    requires b == [Point(0.0, 5.0), Point(0.0, 6.0)] && p == Point(1.0, 0.0)
    ensures !StartIsUpstream(b, p, [], 0)
  {
    assert DistSq(b[0], p) == 26.0 && DistSq(b[1], p) == 37.0;
  }

  lemma SecondPart(b: seq<Point>, p: Point, line: seq<Point>)
    requires b == [Point(0.0, 5.0), Point(0.0, 6.0)] && p == Point(1.0, 0.0) && Truncates(b, p, [], line)
    ensures line == [Point(0.0, 6.0), p]
  {
    var seg: nat :| IsNearestSegment(b, p, seg) && line == Kept(b, p, [], seg) + [p];
    assert seg == 0;
    FartherStart(b, p);
    assert Reversed(b[1..]) == [Point(0.0, 6.0)];
  }
}
