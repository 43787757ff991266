/**
  Choosing the snap target of an outlet.  Distances and weights are reals.
 */
module SnapResolver {
  import opened Prelude

  datatype Ordering = Less | Equal | Greater {
    function Then(next: Ordering): Ordering {
      if Equal? then next else this
    }
  }

  datatype Strategy = DistanceFirst | WeightFirst

  /** A snap target within the search radius, with its distance from the outlet. */
  datatype Candidate = Candidate(id: int, unitId: int, weight: real, mainstem: bool, distance: real)

  function CompareReal(x: real, y: real): Ordering {
    if x < y then Less else if x == y then Equal else Greater
  }

  function CompareInt(x: int, y: int): Ordering {
    if x < y then Less else if x == y then Equal else Greater
  }

  /** `vector_dominance_order` */
  function DominanceOrder(a: Candidate, b: Candidate, includeDistance: bool): Ordering {
    CompareReal(b.weight, a.weight)
    .Then(CompareInt(if b.mainstem then 1 else 0, if a.mainstem then 1 else 0))
    .Then(if includeDistance then CompareReal(a.distance, b.distance) else Equal)
    .Then(CompareInt(a.id, b.id))
  }

  /** Heavier; else on the mainstem; else, where distance counts, nearer; else the smaller identifier. */
  predicate Dominates(a: Candidate, b: Candidate, includeDistance: bool) {
    if a.weight != b.weight then a.weight > b.weight
    else if a.mainstem != b.mainstem then a.mainstem
    else if includeDistance && a.distance != b.distance then a.distance < b.distance
    else a.id < b.id
  }

  lemma OrderIsDominance(a: Candidate, b: Candidate, includeDistance: bool)
    ensures DominanceOrder(a, b, includeDistance).Less? <==> Dominates(a, b, includeDistance)
    ensures a.id != b.id ==> Dominates(a, b, includeDistance) || Dominates(b, a, includeDistance)
    ensures !(Dominates(a, b, includeDistance) && Dominates(b, a, includeDistance))
  {
  }

  lemma DominanceIsTransitive(a: Candidate, b: Candidate, c: Candidate, includeDistance: bool)
    requires Dominates(a, b, includeDistance) && !Dominates(c, b, includeDistance)
    ensures Dominates(a, c, includeDistance)
  {
  }

  /** The smallest distance, `min_by` over all candidates. */
  function MinDistance(candidates: seq<Candidate>): (m: real)
    requires candidates != []
    ensures forall i :: 0 <= i < |candidates| ==> m <= candidates[i].distance
    ensures exists i :: 0 <= i < |candidates| && candidates[i].distance == m
  {
    var last := |candidates| - 1;
    if last == 0 then candidates[0].distance
    else
      var m := MinDistance(candidates[..last]);
      if candidates[last].distance < m then candidates[last].distance else m
  }

  /** Within the distance limit, if there is one. */
  predicate Admitted(c: Candidate, limit: Option<real>) {
    limit.None? || c.distance <= limit.value
  }

  /** `filter` and `min_by`: the first admitted candidate with no later one before it in the order. */
  function Best(candidates: seq<Candidate>, limit: Option<real>, includeDistance: bool): Option<nat> {
    if candidates == [] then None
    else
      var last := |candidates| - 1;
      var best := Best(candidates[..last], limit, includeDistance);
      if !Admitted(candidates[last], limit) then best
      else if best.None? || best.value >= last then Some(last)
      else if DominanceOrder(candidates[last], candidates[best.value], includeDistance).Less? then Some(last)
      else best
  }

  /** `rank` */
  function Rank(strategy: Strategy, tolerance: real, candidates: seq<Candidate>): Option<nat> {
    match strategy
    case DistanceFirst => if candidates == [] then None
        else Best(candidates, Some(MinDistance(candidates) + tolerance), false)
    case WeightFirst => Best(candidates, None, true)
  }

  /** Position `w` holds an admitted candidate that no admitted one dominates, the first such. */
  ghost predicate IsBest(candidates: seq<Candidate>, limit: Option<real>, includeDistance: bool, w: nat) {
    && w < |candidates| && Admitted(candidates[w], limit)
    && (forall j :: 0 <= j < |candidates| && Admitted(candidates[j], limit) ==>
        !Dominates(candidates[j], candidates[w], includeDistance))
    && (forall j :: 0 <= j < w && Admitted(candidates[j], limit) ==>
        Dominates(candidates[w], candidates[j], includeDistance))
  }

  lemma {:induction false} BestIsBest(candidates: seq<Candidate>, limit: Option<real>, includeDistance: bool)
    ensures var best := Best(candidates, limit, includeDistance);
            if best.Some? then IsBest(candidates, limit, includeDistance, best.value)
            else forall j :: 0 <= j < |candidates| ==> !Admitted(candidates[j], limit)
  {
    if candidates != [] {
      var last := |candidates| - 1;
      var front := candidates[..last];
      BestIsBest(front, limit, includeDistance);
      var best := Best(front, limit, includeDistance);
      if best.Some? {
        OrderIsDominance(candidates[last], front[best.value], includeDistance);
        forall j | 0 <= j < last && Admitted(candidates[j], limit) &&
            Dominates(candidates[last], front[best.value], includeDistance)
          ensures Dominates(candidates[last], candidates[j], includeDistance)
        {
          assert !Dominates(front[j], front[best.value], includeDistance);
          DominanceIsTransitive(candidates[last], front[best.value], candidates[j], includeDistance);
        }
        OrderIsDominance(candidates[last], candidates[last], includeDistance);
      }
    }
  }

  predicate DistinctIds(candidates: seq<Candidate>) {
    forall i, j :: 0 <= i < j < |candidates| ==> candidates[i].id != candidates[j].id
  }

  /** The strategy's band: everything, or what lies within the tolerance of the nearest candidate. */
  ghost predicate InBand(strategy: Strategy, tolerance: real, candidates: seq<Candidate>, c: Candidate) {
    strategy.WeightFirst? || forall x :: x in candidates ==> c.distance <= x.distance + tolerance
  }

  /** `c` is in the band and dominates everything else in it. */
  ghost predicate Wins(strategy: Strategy, tolerance: real, candidates: seq<Candidate>, c: Candidate) {
    && c in candidates && InBand(strategy, tolerance, candidates, c)
    && forall x :: x in candidates && x != c && InBand(strategy, tolerance, candidates, x) ==>
        Dominates(c, x, strategy.WeightFirst?)
  }

  lemma BandIsLimit(tolerance: real, candidates: seq<Candidate>, c: Candidate)
    requires candidates != [] && tolerance >= 0.0
    ensures InBand(DistanceFirst, tolerance, candidates, c) <==> Admitted(c, Some(MinDistance(candidates) + tolerance))
  {
    var m := MinDistance(candidates);
    var i :| 0 <= i < |candidates| && candidates[i].distance == m;
    if InBand(DistanceFirst, tolerance, candidates, c) {
      assert candidates[i] in candidates;
    }
  }

  lemma BestWins(strategy: Strategy, tolerance: real, candidates: seq<Candidate>, limit: Option<real>, w: nat)
    requires DistinctIds(candidates) && IsBest(candidates, limit, strategy.WeightFirst?, w)
    requires forall c :: InBand(strategy, tolerance, candidates, c) <==> Admitted(c, limit)
    ensures Wins(strategy, tolerance, candidates, candidates[w])
  {
    forall x | x in candidates && x != candidates[w] && Admitted(x, limit)
      ensures Dominates(candidates[w], x, strategy.WeightFirst?)
    {
      var j :| 0 <= j < |candidates| && candidates[j] == x;
      assert j < w || w < j;
      OrderIsDominance(candidates[w], x, strategy.WeightFirst?);
    }
  }

  /** Ranking a non-empty list gives the candidate of the band that dominates the rest of it. */
  lemma RankWins(strategy: Strategy, tolerance: real, candidates: seq<Candidate>)
    requires candidates != [] && tolerance >= 0.0 && DistinctIds(candidates)
    ensures var w := Rank(strategy, tolerance, candidates);
            w.Some? && w.value < |candidates| && Wins(strategy, tolerance, candidates, candidates[w.value])
  {
    var limit := if strategy.WeightFirst? then None else Some(MinDistance(candidates) + tolerance);
    BestIsBest(candidates, limit, strategy.WeightFirst?);
    var i :| 0 <= i < |candidates| && candidates[i].distance == MinDistance(candidates);
    assert Admitted(candidates[i], limit);
    forall c ensures InBand(strategy, tolerance, candidates, c) <==> Admitted(c, limit) {
      BandIsLimit(tolerance, candidates, c);
    }
    BestWins(strategy, tolerance, candidates, limit, Rank(strategy, tolerance, candidates).value);
  }

  /** Only one candidate can win. */
  lemma OneWinner(strategy: Strategy, tolerance: real, candidates: seq<Candidate>, a: Candidate, b: Candidate)
    requires Wins(strategy, tolerance, candidates, a) && Wins(strategy, tolerance, candidates, b)
    ensures a == b
  {
    if a != b {
      OrderIsDominance(a, b, strategy.WeightFirst?);
    }
  }

  /** The winner depends on the set of candidates, not on their order. */
  lemma RankIgnoresOrder(strategy: Strategy, tolerance: real, a: seq<Candidate>, b: seq<Candidate>)
    requires a != [] && tolerance >= 0.0 && DistinctIds(a) && DistinctIds(b) && forall c :: c in a <==> c in b
    ensures b != [] && Rank(strategy, tolerance, a).Some? && Rank(strategy, tolerance, b).Some?
    ensures Rank(strategy, tolerance, a).value < |a| && Rank(strategy, tolerance, b).value < |b|
    ensures a[Rank(strategy, tolerance, a).value] == b[Rank(strategy, tolerance, b).value]
  {
    assert a[0] in b;
    RankWins(strategy, tolerance, a);
    RankWins(strategy, tolerance, b);
    var winner := b[Rank(strategy, tolerance, b).value];
    assert Wins(strategy, tolerance, a, winner);
    OneWinner(strategy, tolerance, a, a[Rank(strategy, tolerance, a).value], winner);
  }

  // ---- Scoring the targets of a search box ----------------------------------------------

  /** A target of the search box; `distance` is `None` when its geometry does not decode or has no closest point. */
  datatype Target = Target(id: int, unitId: int, weight: real, mainstem: bool, distance: Option<real>)

  datatype SnapError = NoSnapCandidates | AllGeometriesCorrupt(count: nat) | Inconsistent

  datatype Search = Search(strategy: Strategy, tolerance: real, radius: real, levelOf: map<int, int>,
                           selected: Option<int>) {
    predicate AtLevel(t: Target) {
      selected.None? || (t.unitId in levelOf && levelOf[t.unitId] == selected.value)
    }

    predicate Qualifies(t: Target) {
      AtLevel(t) && t.distance.Some? && t.distance.value <= radius
    }

    /** Heavier; else on the mainstem; else, ranking by weight first, nearer; else of the smaller identifier. */
    predicate Prefers(a: Target, b: Target)
      requires Qualifies(a) && Qualifies(b)
    {
      if a.weight != b.weight then a.weight > b.weight
      else if a.mainstem != b.mainstem then a.mainstem
      else if strategy.WeightFirst? && a.distance != b.distance then a.distance.value < b.distance.value
      else a.id < b.id
    }

    /** Ranking by distance first, only targets within the tolerance of every other one are considered. */
    ghost predicate Considers(targets: seq<Target>, t: Target)
      requires Qualifies(t)
    {
      strategy.DistanceFirst? ==>
        forall x :: x in targets && Qualifies(x) ==> t.distance.value <= x.distance.value + tolerance
    }

    /** The target to choose: it is preferred to every other one considered. */
    ghost predicate Chooses(targets: seq<Target>, t: Target) {
      && t in targets && Qualifies(t) && Considers(targets, t)
      && forall x :: x in targets && x != t && Qualifies(x) && Considers(targets, x) ==> Prefers(t, x)
    }

    /** The result names a chosen target, with all that is reported of it. */
    ghost predicate Reports(targets: seq<Target>, c: Candidate) {
      exists t :: Chooses(targets, t) && t.id == c.id && t.unitId == c.unitId && t.weight == c.weight
                  && t.mainstem == c.mainstem && t.distance == Some(c.distance)
    }
  }

  function Scored(t: Target): Candidate
    requires t.distance.Some?
  {
    Candidate(t.id, t.unitId, t.weight, t.mainstem, t.distance.value)
  }

  ghost predicate Corrupt(s: Search, t: Target) {
    s.AtLevel(t) && t.distance.None?
  }

  /** The scored candidates are those of the qualifying targets. */
  ghost predicate ScoresOf(s: Search, targets: seq<Target>, scored: seq<Candidate>) {
    forall c :: c in scored <==> exists t :: t in targets && s.Qualifies(t) && Scored(t) == c
  }

  ghost predicate DistinctTargets(targets: seq<Target>) {
    forall i, j :: 0 <= i < j < |targets| ==> targets[i].id != targets[j].id
  }

  lemma ScoreNext(s: Search, targets: seq<Target>, t: Target, scored: seq<Candidate>)
    requires ScoresOf(s, targets, scored) && DistinctIds(scored) && forall x :: x in targets ==> x.id != t.id
    ensures s.Qualifies(t) ==> ScoresOf(s, targets + [t], scored + [Scored(t)]) && DistinctIds(scored + [Scored(t)])
    ensures !s.Qualifies(t) ==> ScoresOf(s, targets + [t], scored)
  {
    forall x | x in targets ensures x in targets + [t] {
    }
    forall i | 0 <= i < |scored| ensures scored[i].id != t.id {
      assert scored[i] in scored;
      var x :| x in targets && s.Qualifies(x) && Scored(x) == scored[i];
    }
    assert t in targets + [t];
    forall x | x in targets + [t] ensures x in targets || x == t {
    }
  }

  /**
    `resolve_via_snap_store`, from the targets in the search box on: the winner among the
    qualifying targets, or the error that says why there is none.
   */
  method ResolveViaSnapStore(s: Search, targets: seq<Target>) returns (r: Result<Candidate, SnapError>)
    requires s.tolerance >= 0.0 && DistinctTargets(targets)
    ensures r.Success? ==> s.Reports(targets, r.value)
    ensures r.Success? <==> exists t :: t in targets && s.Qualifies(t)
    ensures r.Failure? ==> r.error == if targets != [] && forall t :: t in targets ==> Corrupt(s, t)
                                      then AllGeometriesCorrupt(|targets|) else NoSnapCandidates
  {
    if |targets| == 0 {
      return Failure(NoSnapCandidates);
    }
    var scored: seq<Candidate> := [];
    var decodeFailures: nat := 0;
    for i := 0 to |targets|
      invariant ScoresOf(s, targets[..i], scored) && DistinctIds(scored)
      invariant decodeFailures <= i && (decodeFailures == i <==> forall j :: 0 <= j < i ==> Corrupt(s, targets[j]))
    {
      var t := targets[i];
      assert targets[..i + 1] == targets[..i] + [t];
      ScoreNext(s, targets[..i], t, scored);
      if s.selected.Some? && (t.unitId !in s.levelOf || s.levelOf[t.unitId] != s.selected.value) {
        continue;
      }
      if t.distance.None? {
        decodeFailures := decodeFailures + 1;
        continue;
      }
      if t.distance.value > s.radius {
        continue;
      }
      scored := scored + [Scored(t)];
    }
    assert targets[..|targets|] == targets;
    if |scored| == 0 {
      forall t | t in targets ensures !s.Qualifies(t) {
        assert s.Qualifies(t) ==> Scored(t) in scored;
      }
      if decodeFailures > 0 && decodeFailures == |targets| {
        return Failure(AllGeometriesCorrupt(decodeFailures));
      }
      return Failure(NoSnapCandidates);
    }
    RankWins(s.strategy, s.tolerance, scored);
    assert scored[0] in scored;
    var winner := Rank(s.strategy, s.tolerance, scored);
    if winner.None? {
      return Failure(Inconsistent);
    }
    WinnerIsReported(s, targets, scored, scored[winner.value]);
    return Success(scored[winner.value]);
  }

  /** Ranking the scored candidates chooses among the targets. */
  lemma WinnerIsReported(s: Search, targets: seq<Target>, scored: seq<Candidate>, c: Candidate)
    requires ScoresOf(s, targets, scored) && Wins(s.strategy, s.tolerance, scored, c)
    requires DistinctTargets(targets)
    ensures s.Reports(targets, c)
  {
    var t :| t in targets && s.Qualifies(t) && Scored(t) == c;
    forall x | x in targets && s.Qualifies(x)
      ensures Scored(x) in scored
      ensures s.Considers(targets, x) <==> InBand(s.strategy, s.tolerance, scored, Scored(x))
    {
      BandOfTargets(s, targets, scored, x);
    }
    forall x | x in targets && x != t && s.Qualifies(x) && s.Considers(targets, x) ensures s.Prefers(t, x) {
      OtherIdentifier(targets, t, x);
      assert Dominates(c, Scored(x), s.strategy.WeightFirst?);
    }
  }

  lemma OtherIdentifier(targets: seq<Target>, a: Target, b: Target)
    requires DistinctTargets(targets) && a in targets && b in targets && a != b
    ensures a.id != b.id
  {
    var i :| 0 <= i < |targets| && targets[i] == a;
    var j :| 0 <= j < |targets| && targets[j] == b;
    assert i < j || j < i;
  }

  /** A target is considered exactly when its candidate is in the band. */
  lemma BandOfTargets(s: Search, targets: seq<Target>, scored: seq<Candidate>, t: Target)
    requires ScoresOf(s, targets, scored) && t in targets && s.Qualifies(t)
    ensures Scored(t) in scored
    ensures s.Considers(targets, t) <==> InBand(s.strategy, s.tolerance, scored, Scored(t))
  {
    if s.strategy.DistanceFirst? {
      if s.Considers(targets, t) {
        forall c | c in scored ensures Scored(t).distance <= c.distance + s.tolerance {
          var x :| x in targets && s.Qualifies(x) && Scored(x) == c;
        }
      }
      if InBand(s.strategy, s.tolerance, scored, Scored(t)) {
        forall x | x in targets && s.Qualifies(x) ensures t.distance.value <= x.distance.value + s.tolerance {
          assert Scored(x) in scored;
        }
      }
    }
  }

  /** The resolved target depends on the set of targets, not on the order in which they are read. */
  lemma ResolutionIgnoresOrder(s: Search, a: seq<Target>, b: seq<Target>, c: Candidate, d: Candidate)
    requires (forall t :: t in a <==> t in b) && s.Reports(a, c) && s.Reports(b, d)
    ensures c == d
  {
    var t :| s.Chooses(a, t) && t.id == c.id && t.unitId == c.unitId && t.weight == c.weight
             && t.mainstem == c.mainstem && t.distance == Some(c.distance);
    var u :| s.Chooses(b, u) && u.id == d.id && u.unitId == d.unitId && u.weight == d.weight
             && u.mainstem == d.mainstem && u.distance == Some(d.distance);
    assert s.Considers(a, u) && s.Considers(b, t);
    NotBothPreferred(s, t, u);
  }

  lemma NotBothPreferred(s: Search, a: Target, b: Target)
    requires s.Qualifies(a) && s.Qualifies(b)
    ensures !(s.Prefers(a, b) && s.Prefers(b, a))
  {
  }
}
