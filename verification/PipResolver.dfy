/**
  Choosing the catchment that contains an outlet, and reporting what broke a tie.  Areas are
  reals; whether a geometry decodes, contains the outlet or touches it is part of the input.
 */
module PipResolver {
  import opened Prelude
  import opened SnapResolver

  /** The keys by which a catchment is ranked. */
  datatype Hit = Hit(id: int, level: int, upstreamArea: Option<real>, area: real)

  /** What the geometry says about the outlet. */
  datatype Relation = Relation(contains: bool, intersects: bool)

  /** A catchment of the search box; `relation` is `None` when its geometry does not decode. */
  datatype Boxed = Boxed(unit: Hit, relation: Option<Relation>)

  datatype TieBreak = HighestUpstreamArea | HighestLocalArea | LowestUnitId

  datatype PipError = OutsideAllCatchments | AllGeometriesAreCorrupt(count: nat)

  datatype Containment = Containment(winner: Hit, considered: nat, tieBreak: Option<TieBreak>)

  // ---- The order of hits --------------------------------------------------------------

  /** The comparison of the sort. */
  function CompareHits(a: Hit, b: Hit): Ordering {
    var upstream := match (a.upstreamArea, b.upstreamArea)
      case (Some(x), Some(y)) => CompareReal(y, x)
      case (Some(_), None) => Less
      case (None, Some(_)) => Greater
      case (None, None) => Equal;
    upstream.Then(CompareReal(b.area, a.area)).Then(CompareInt(a.id, b.id))
  }

  /** A known upstream area beats an unknown one, and a larger one a smaller. */
  predicate DrainsMore(a: Hit, b: Hit) {
    a.upstreamArea.Some? && (b.upstreamArea.None? || a.upstreamArea.value > b.upstreamArea.value)
  }

  predicate Outranks(a: Hit, b: Hit) {
    if a.upstreamArea != b.upstreamArea then DrainsMore(a, b)
    else if a.area != b.area then a.area > b.area
    else a.id < b.id
  }

  lemma CompareIsOutranks(a: Hit, b: Hit)
    ensures CompareHits(a, b).Less? <==> Outranks(a, b)
    ensures a.id != b.id ==> Outranks(a, b) || Outranks(b, a)
    ensures !(Outranks(a, b) && Outranks(b, a))
  {
  }

  lemma OutranksTransitive(a: Hit, b: Hit, c: Hit)
    requires Outranks(a, b) && !Outranks(c, b)
    ensures Outranks(a, c)
  {
  }

  predicate DistinctUnits(hits: seq<Hit>) {
    forall i, j :: 0 <= i < j < |hits| ==> hits[i].id != hits[j].id
  }

  /** A stable sort by the comparison: each hit goes behind those it does not precede. */
  function Insert(sorted: seq<Hit>, x: Hit): seq<Hit> {
    if sorted == [] then [x]
    else
      var last := |sorted| - 1;
      if CompareHits(x, sorted[last]).Less? then Insert(sorted[..last], x) + [sorted[last]] else sorted + [x]
  }

  function SortHits(hits: seq<Hit>): seq<Hit> {
    if hits == [] then [] else Insert(SortHits(hits[..|hits| - 1]), hits[|hits| - 1])
  }

  ghost predicate Ranked(s: seq<Hit>) {
    forall i, j :: 0 <= i < j < |s| ==> !Outranks(s[j], s[i])
  }

  lemma {:induction false} InsertMembers(sorted: seq<Hit>, x: Hit)
    ensures multiset(Insert(sorted, x)) == multiset(sorted) + multiset{x}
  {
    if sorted != [] {
      var last := |sorted| - 1;
      InsertMembers(sorted[..last], x);
      assert sorted == sorted[..last] + [sorted[last]];
    }
  }

  lemma RankedAppend(front: seq<Hit>, last: Hit)
    requires Ranked(front) && forall y :: y in front ==> !Outranks(last, y)
    ensures Ranked(front + [last])
  {
  }

  lemma {:induction false} InsertRanks(sorted: seq<Hit>, x: Hit)
    requires Ranked(sorted)
    ensures Ranked(Insert(sorted, x))
  {
    if sorted != [] {
      var last := |sorted| - 1;
      CompareIsOutranks(x, sorted[last]);
      if CompareHits(x, sorted[last]).Less? {
        InsertRanks(sorted[..last], x);
        InsertedBelow(sorted[..last], sorted[last], x);
        RankedAppend(Insert(sorted[..last], x), sorted[last]);
      } else {
        NotAboveAny(sorted, x);
        RankedAppend(sorted, x);
      }
    }
  }

  lemma InsertedBelow(front: seq<Hit>, last: Hit, x: Hit)
    requires Ranked(front + [last]) && Outranks(x, last)
    ensures forall y :: y in Insert(front, x) ==> !Outranks(last, y)
  {
    InsertMembers(front, x);
    forall y | y in Insert(front, x) ensures !Outranks(last, y) {
      assert y in multiset(Insert(front, x));
      if y == x {
        CompareIsOutranks(x, last);
      } else {
        var i :| 0 <= i < |front| && front[i] == y;
        assert (front + [last])[i] == y && (front + [last])[|front|] == last;
      }
    }
  }

  lemma NotAboveAny(sorted: seq<Hit>, x: Hit)
    requires sorted != [] && Ranked(sorted) && !Outranks(x, sorted[|sorted| - 1])
    ensures forall y :: y in sorted ==> !Outranks(x, y)
  {
    var last := |sorted| - 1;
    forall i | 0 <= i < last ensures !Outranks(x, sorted[i]) {
      if Outranks(x, sorted[i]) {
        OutranksTransitive(x, sorted[i], sorted[last]);
      }
    }
  }

  lemma {:induction false} SortMembers(hits: seq<Hit>)
    ensures multiset(SortHits(hits)) == multiset(hits)
  {
    if hits != [] {
      var last := |hits| - 1;
      SortMembers(hits[..last]);
      InsertMembers(SortHits(hits[..last]), hits[last]);
      assert hits == hits[..last] + [hits[last]];
    }
  }

  lemma {:induction false} SortRanks(hits: seq<Hit>)
    ensures Ranked(SortHits(hits))
  {
    if hits != [] {
      var last := |hits| - 1;
      SortRanks(hits[..last]);
      InsertRanks(SortHits(hits[..last]), hits[last]);
    }
  }

  // ---- The winner and the reported tie-break ------------------------------------------

  /** The rule that the first two of the sorted hits differ by. */
  function ReportedTieBreak(a: Hit, b: Hit): TieBreak {
    if a.upstreamArea != b.upstreamArea then HighestUpstreamArea
    else if CompareReal(a.area, b.area) != Equal then HighestLocalArea
    else LowestUnitId
  }

  /** `w` outranks every other hit. */
  ghost predicate WinsHits(hits: seq<Hit>, w: Hit) {
    w in hits && forall x :: x in hits && x != w ==> Outranks(w, x)
  }

  /** The rule that was needed to tell the winner from all other hits together. */
  ghost predicate Decides(hits: seq<Hit>, w: Hit, rule: TieBreak) {
    match rule
    case HighestUpstreamArea => forall x :: x in hits && x != w ==> DrainsMore(w, x)
    case HighestLocalArea =>
      && (exists x :: x in hits && x != w && x.upstreamArea == w.upstreamArea)
      && (forall x :: x in hits && x != w && x.upstreamArea == w.upstreamArea ==> w.area > x.area)
    case LowestUnitId => exists x :: x in hits && x != w && x.upstreamArea == w.upstreamArea && x.area == w.area
  }

  lemma SortedMembers(hits: seq<Hit>, x: Hit)
    ensures x in SortHits(hits) <==> x in hits
  {
    SortMembers(hits);
    assert x in SortHits(hits) <==> x in multiset(SortHits(hits));
    assert x in hits <==> x in multiset(hits);
  }

  /** With distinct identifiers, the first sorted hit outranks all others, and the second all but the first. */
  lemma FirstTwo(hits: seq<Hit>)
    requires |hits| >= 2 && DistinctUnits(hits)
    ensures |SortHits(hits)| == |hits| && WinsHits(hits, SortHits(hits)[0])
    ensures SortHits(hits)[1] in hits && SortHits(hits)[1] != SortHits(hits)[0]
    ensures forall x :: x in hits && x != SortHits(hits)[0] && x != SortHits(hits)[1] ==> Outranks(SortHits(hits)[1], x)
  {
    SortRanks(hits);
    SortMembers(hits);
    var sorted := SortHits(hits);
    SortedLength(hits);
    SortedDistinct(hits, sorted);
    SortedMembers(hits, sorted[0]);
    SortedMembers(hits, sorted[1]);
    forall x | x in hits && x != sorted[0]
      ensures Outranks(sorted[0], x) && (x != sorted[1] ==> Outranks(sorted[1], x))
    {
      SortedMembers(hits, x);
      var k :| 0 <= k < |sorted| && sorted[k] == x;
      CompareIsOutranks(sorted[0], x);
      CompareIsOutranks(sorted[1], x);
    }
  }

  lemma SortedLength(hits: seq<Hit>)
    ensures |SortHits(hits)| == |hits|
  {
    SortMembers(hits);
    assert |multiset(SortHits(hits))| == |SortHits(hits)|;
  }

  lemma SortedDistinct(hits: seq<Hit>, sorted: seq<Hit>)
    requires DistinctUnits(hits) && multiset(sorted) == multiset(hits)
    ensures DistinctUnits(sorted)
  {
    forall i, j | 0 <= i < j < |sorted| ensures sorted[i].id != sorted[j].id {
      if sorted[i].id == sorted[j].id {
        assert sorted[i] in multiset(hits) && sorted[j] in multiset(hits);
        OneOfEach(hits, sorted[i]);
        TwoPlaces(sorted, i, j);
      }
    }
  }

  lemma {:induction false} OneOfEach(hits: seq<Hit>, x: Hit)
    requires DistinctUnits(hits)
    ensures multiset(hits)[x] <= 1
  {
    if hits != [] {
      var last := |hits| - 1;
      OneOfEach(hits[..last], x);
      assert hits == hits[..last] + [hits[last]];
      if hits[last] == x {
        assert x !in hits[..last];
      }
    }
  }

  lemma TwoPlaces(s: seq<Hit>, i: nat, j: nat)
    requires i < j < |s| && s[i] == s[j]
    ensures multiset(s)[s[i]] >= 2
  {
    assert s == s[..j] + [s[j]] + s[j + 1..];
    assert s[i] == s[..j][i];
  }

  /** The reported tie-break is the rule that decided between the winner and all the other hits. */
  lemma TieBreakDecides(hits: seq<Hit>, rule: TieBreak)
    requires |hits| >= 2 && DistinctUnits(hits)
    ensures |SortHits(hits)| == |hits|
    ensures Decides(hits, SortHits(hits)[0], rule) <==> rule == ReportedTieBreak(SortHits(hits)[0], SortHits(hits)[1])
  {
    FirstTwo(hits);
    var w, second := SortHits(hits)[0], SortHits(hits)[1];
    assert Outranks(w, second);
    forall x | x in hits && x != w ensures x == second || (Outranks(w, x) && Outranks(second, x)) {
    }
  }

  /** Winner and tie-break depend on the set of hits, not on their order. */
  lemma WinnerIgnoresOrder(a: seq<Hit>, b: seq<Hit>)
    requires |a| >= 2 && |b| >= 2 && DistinctUnits(a) && DistinctUnits(b) && forall x :: x in a <==> x in b
    ensures |SortHits(a)| == |a| && |SortHits(b)| == |b| && SortHits(a)[0] == SortHits(b)[0]
    ensures ReportedTieBreak(SortHits(a)[0], SortHits(a)[1]) == ReportedTieBreak(SortHits(b)[0], SortHits(b)[1])
  {
    FirstTwo(a);
    FirstTwo(b);
    var w, v := SortHits(a)[0], SortHits(b)[0];
    if w != v {
      CompareIsOutranks(w, v);
    }
    SameDecision(a, b, w, ReportedTieBreak(w, SortHits(a)[1]));
    TieBreakDecides(a, ReportedTieBreak(w, SortHits(a)[1]));
    TieBreakDecides(b, ReportedTieBreak(w, SortHits(a)[1]));
  }

  lemma SameDecision(a: seq<Hit>, b: seq<Hit>, w: Hit, rule: TieBreak)
    requires forall x :: x in a <==> x in b
    ensures Decides(a, w, rule) <==> Decides(b, w, rule)
  {
  }

  // ---- Resolution ---------------------------------------------------------------------

  function Select(s: seq<Boxed>, keep: Boxed -> bool): (r: seq<Boxed>)
    ensures |r| <= |s| && forall x :: x in r <==> x in s && keep(x)
  {
    if s == [] then []
    else
      var last := |s| - 1;
      assert s == s[..last] + [s[last]];
      if keep(s[last]) then Select(s[..last], keep) + [s[last]] else Select(s[..last], keep)
  }

  predicate DistinctBoxes(candidates: seq<Boxed>) {
    forall i, j :: 0 <= i < j < |candidates| ==> candidates[i].unit.id != candidates[j].unit.id
  }

  lemma {:induction false} SelectDistinct(candidates: seq<Boxed>, keep: Boxed -> bool)
    requires DistinctBoxes(candidates)
    ensures DistinctBoxes(Select(candidates, keep))
  {
    if candidates != [] {
      var last := |candidates| - 1;
      SelectDistinct(candidates[..last], keep);
      var front := Select(candidates[..last], keep);
      forall i | 0 <= i < |front| ensures front[i].unit.id != candidates[last].unit.id {
        assert front[i] in front;
      }
    }
  }

  function Units(candidates: seq<Boxed>): (r: seq<Hit>)
    ensures |r| == |candidates| && forall i :: 0 <= i < |r| ==> r[i] == candidates[i].unit
  {
    seq(|candidates|, i requires 0 <= i < |candidates| => candidates[i].unit)
  }

  predicate Eligible(selected: Option<int>, c: Boxed) {
    c.relation.Some? && (selected.None? || c.unit.level == selected.value)
  }

  predicate Contains(c: Boxed) {
    c.relation.Some? && c.relation.value.contains
  }

  predicate Touches(c: Boxed) {
    c.relation.Some? && c.relation.value.intersects
  }

  /** An eligible candidate contains the outlet, or none does and it touches the outlet. */
  ghost predicate IsHit(candidates: seq<Boxed>, selected: Option<int>, c: Boxed) {
    && c in candidates && Eligible(selected, c)
    && if exists d :: d in candidates && Eligible(selected, d) && d.relation.value.contains
       then c.relation.value.contains else c.relation.value.intersects
  }

  /** The hits, found by containment first and by touching only when nothing contains the outlet. */
  function Hits(decoded: seq<Boxed>): seq<Boxed> {
    var contained := Select(decoded, Contains);
    if contained == [] then Select(decoded, Touches) else contained
  }

  lemma HitsAreHits(candidates: seq<Boxed>, selected: Option<int>, decoded: seq<Boxed>)
    requires forall c :: c in decoded <==> c in candidates && Eligible(selected, c)
    ensures forall c :: c in Hits(decoded) <==> IsHit(candidates, selected, c)
  {
    var contained := Select(decoded, Contains);
    assert contained != [] ==> contained[0] in contained;
    if d: Boxed :| d in candidates && Eligible(selected, d) && d.relation.value.contains {
      assert d in contained;
    }
  }

  ghost predicate AllCorrupt(candidates: seq<Boxed>) {
    candidates != [] && forall c :: c in candidates ==> c.relation.None?
  }

  /** The hits of a list of candidates. */
  ghost predicate AreHits(candidates: seq<Boxed>, selected: Option<int>, hits: seq<Hit>) {
    forall u :: u in hits <==> exists c :: IsHit(candidates, selected, c) && c.unit == u
  }

  /** `w` wins among the hits, by the reported rule if there are others. */
  ghost predicate WinsBy(hits: seq<Hit>, w: Hit, tieBreak: Option<TieBreak>) {
    && WinsHits(hits, w)
    && match tieBreak
       case None => forall u :: u in hits ==> u == w
       case Some(rule) => (exists u :: u in hits && u != w) && Decides(hits, w, rule)
  }

  /** The winner among the hits, with the tie-break that decided. */
  ghost predicate Resolves(candidates: seq<Boxed>, selected: Option<int>, r: Containment) {
    exists hits :: AreHits(candidates, selected, hits) && WinsBy(hits, r.winner, r.tieBreak)
  }

  lemma UnitMembers(candidates: seq<Boxed>, selected: Option<int>, boxes: seq<Boxed>, u: Hit)
    requires forall c :: c in boxes <==> IsHit(candidates, selected, c)
    ensures u in Units(boxes) <==> exists c :: IsHit(candidates, selected, c) && c.unit == u
  {
    if u in Units(boxes) {
      var i :| 0 <= i < |boxes| && Units(boxes)[i] == u;
      assert boxes[i] in boxes;
    }
    if c: Boxed :| IsHit(candidates, selected, c) && c.unit == u {
      assert c in boxes;
      var i :| 0 <= i < |boxes| && boxes[i] == c;
      assert Units(boxes)[i] == u;
    }
  }

  /** The only hit, or the first of the sorted hits with the tie-break of the first two. */
  function Outcome(hits: seq<Hit>, considered: nat): Containment
    requires hits != []
  {
    SortedLength(hits);
    if |hits| == 1 then Containment(hits[0], considered, None)
    else Containment(SortHits(hits)[0], considered, Some(ReportedTieBreak(SortHits(hits)[0], SortHits(hits)[1])))
  }

  lemma OutcomeResolves(candidates: seq<Boxed>, selected: Option<int>, boxes: seq<Boxed>, considered: nat)
    requires boxes != [] && DistinctBoxes(boxes) && forall c :: c in boxes <==> IsHit(candidates, selected, c)
    ensures Resolves(candidates, selected, Outcome(Units(boxes), considered))
  {
    var hits := Units(boxes);
    forall u ensures u in hits <==> exists c :: IsHit(candidates, selected, c) && c.unit == u {
      UnitMembers(candidates, selected, boxes, u);
    }
    assert AreHits(candidates, selected, hits);
    if |hits| == 1 {
      assert forall u :: u in hits ==> u == hits[0];
    } else {
      FirstTwo(hits);
      TieBreakDecides(hits, ReportedTieBreak(SortHits(hits)[0], SortHits(hits)[1]));
    }
  }

  /** `resolve_via_pip`, from the catchments in the search box on. */
  method ResolveViaPip(candidates: seq<Boxed>, selected: Option<int>) returns (r: Result<Containment, PipError>)
    requires DistinctBoxes(candidates)
    ensures r.Success? <==> exists c :: IsHit(candidates, selected, c)
    ensures r.Success? ==> Resolves(candidates, selected, r.value)
    ensures r.Success? ==> r.value.considered == |set c | c in candidates && Eligible(selected, c)|
    ensures r.Failure? ==>
              r.error == if AllCorrupt(candidates) then AllGeometriesAreCorrupt(|candidates|) else OutsideAllCatchments
  {
    if |candidates| == 0 {
      return Failure(OutsideAllCatchments);
    }
    var decodable := Select(candidates, (c: Boxed) => c.relation.Some?);
    var decodeFailures := |candidates| - |decodable|;
    SelectDistinct(candidates, (c: Boxed) => c.relation.Some?);
    var decoded := decodable;
    if selected.Some? {
      var level := selected.value;
      decoded := Select(decodable, (c: Boxed) => c.unit.level == level);
      SelectDistinct(decodable, (c: Boxed) => c.unit.level == level);
    }
    HitsAreHits(candidates, selected, decoded);
    HitsDistinct(decoded);
    EligibleCount(candidates, decoded, selected);
    var boxes := Hits(decoded);
    if |boxes| == 0 {
      NoneDecodable(candidates, decodable);
      if decodeFailures > 0 && decodeFailures == |candidates| {
        return Failure(AllGeometriesAreCorrupt(decodeFailures));
      }
      return Failure(OutsideAllCatchments);
    }
    assert boxes[0] in boxes;
    OutcomeResolves(candidates, selected, boxes, |decoded|);
    var hits := Units(boxes);
    if |hits| == 1 {
      return Success(Containment(hits[0], |decoded|, None));
    }
    SortedLength(hits);
    hits := SortHits(hits);
    return Success(Containment(hits[0], |decoded|, Some(ReportedTieBreak(hits[0], hits[1]))));
  }

  lemma NoneDecodable(candidates: seq<Boxed>, decodable: seq<Boxed>)
    requires candidates != [] && forall c :: c in decodable <==> c in candidates && c.relation.Some?
    ensures |decodable| == 0 <==> AllCorrupt(candidates)
  {
    if decodable != [] {
      assert decodable[0] in decodable;
    }
  }

  lemma {:induction false} DistinctCount(s: seq<Boxed>)
    requires DistinctBoxes(s)
    ensures |set c | c in s| == |s|
  {
    if s != [] {
      var last := |s| - 1;
      DistinctCount(s[..last]);
      assert s == s[..last] + [s[last]];
      assert (set c | c in s) == (set c | c in s[..last]) + {s[last]};
    }
  }

  lemma EligibleCount(candidates: seq<Boxed>, decoded: seq<Boxed>, selected: Option<int>)
    requires DistinctBoxes(decoded) && forall c :: c in decoded <==> c in candidates && Eligible(selected, c)
    ensures |decoded| == |set c | c in candidates && Eligible(selected, c)|
  {
    DistinctCount(decoded);
    assert (set c | c in decoded) == (set c | c in candidates && Eligible(selected, c));
  }

  lemma HitsDistinct(decoded: seq<Boxed>)
    requires DistinctBoxes(decoded)
    ensures DistinctBoxes(Hits(decoded))
  {
    SelectDistinct(decoded, Contains);
    SelectDistinct(decoded, Touches);
  }

  lemma OneOutcome(hits: seq<Hit>, other: seq<Hit>, v: Hit, w: Hit, r: Option<TieBreak>, q: Option<TieBreak>)
    requires (forall u :: u in hits <==> u in other) && WinsBy(hits, v, r) && WinsBy(other, w, q)
    ensures v == w && r == q
  {
    if v != w {
      CompareIsOutranks(v, w);
    }
    if r.Some? {
      SameDecision(hits, other, v, r.value);
    }
  }

  /** The outcome depends on the set of candidates, not on the order in which they are read. */
  lemma ResolutionIgnoresOrder(a: seq<Boxed>, b: seq<Boxed>, selected: Option<int>, x: Containment, y: Containment)
    requires forall c :: c in a <==> c in b
    requires Resolves(a, selected, x) && Resolves(b, selected, y)
    ensures x.winner == y.winner && x.tieBreak == y.tieBreak
  {
    forall c ensures IsHit(a, selected, c) <==> IsHit(b, selected, c) {
    }
    var hits :| AreHits(a, selected, hits) && WinsBy(hits, x.winner, x.tieBreak);
    var other :| AreHits(b, selected, other) && WinsBy(other, y.winner, y.tieBreak);
    forall u ensures u in hits <==> u in other {
      assert u in hits <==> exists c :: IsHit(b, selected, c) && c.unit == u;
    }
    OneOutcome(hits, other, x.winner, y.winner, x.tieBreak, y.tieBreak);
  }
}
