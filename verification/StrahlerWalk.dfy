/**
  The explicit-stack walk that computes Strahler orders, for every drainage tree and every
  order in which its units are listed.
 */
module StrahlerWalk {
  import opened Prelude
  import opened Upstream
  import opened Strahler

  type Stack = seq<(UnitId, bool)>

  /** The tributary lists built from the units. */
  function KidList(children: map<UnitId, seq<UnitId>>, id: UnitId): seq<UnitId> {
    if id in children then children[id] else []
  }

  ghost predicate KidTable(children: map<UnitId, seq<UnitId>>, t: RankedTree) {
    forall id :: id in t.parent ==> KidsOf(t, id, KidList(children, id))
  }

  /** Exactly the tributaries of the unit, once each. */
  ghost predicate KidsOf(t: RankedTree, id: UnitId, kids: seq<UnitId>) {
    Distinct(kids) && forall k :: k in kids <==> k in t.Kids(id)
  }

  predicate OnStack(stack: Stack, id: UnitId) {
    (id, true) in stack || (id, false) in stack
  }

  ghost predicate DistinctIds(stack: Stack) {
    forall i, j :: 0 <= i < j < |stack| ==> stack[i].0 != stack[j].0
  }

  /** Expanded entries are entered and not ordered yet; the others are not entered. */
  ghost predicate EntriesFit(stack: Stack, entered: set<UnitId>, order: map<UnitId, nat>) {
    forall e :: e in stack ==> if e.1 then e.0 in entered && e.0 !in order else e.0 !in entered
  }

  /** A unit is reached only through its downstream unit. */
  ghost predicate ReachedThroughParent(t: RankedTree, stack: Stack, entered: set<UnitId>) {
    forall id, kid :: kid in t.Kids(id) && (kid in entered || OnStack(stack, kid)) ==> id in entered
  }

  /** Tributaries of an expanded entry are ordered or above it on the stack. */
  ghost predicate KidsAbove(t: RankedTree, stack: Stack, order: map<UnitId, nat>) {
    forall i, kid :: 0 <= i < |stack| && stack[i].1 && kid in t.Kids(stack[i].0) ==>
        kid in order || OnStack(stack[i + 1..], kid)
  }

  ghost predicate RuleHolds(t: RankedTree, order: map<UnitId, nat>) {
    forall id :: id in order ==> StrahlerRule(t.Kids(id), order, order[id])
  }

  ghost predicate EnteredKids(t: RankedTree, stack: Stack, entered: set<UnitId>) {
    forall id, kid :: id in entered && kid in t.Kids(id) ==> kid in entered || OnStack(stack, kid)
  }

  ghost predicate EnteredDone(stack: Stack, entered: set<UnitId>, order: map<UnitId, nat>) {
    forall id :: id in entered ==> id in order || (id, true) in stack
  }

  ghost predicate InTree(t: RankedTree, stack: Stack, entered: set<UnitId>, order: map<UnitId, nat>) {
    && order.Keys <= entered <= t.parent.Keys
    && forall e :: e in stack ==> e.0 in t.parent
  }

  /** What holds between two pops. */
  ghost predicate Walking(t: RankedTree, stack: Stack, entered: set<UnitId>, order: map<UnitId, nat>) {
    && InTree(t, stack, entered, order) && DistinctIds(stack) && EntriesFit(stack, entered, order)
    && ReachedThroughParent(t, stack, entered) && KidsAbove(t, stack, order) && RuleHolds(t, order)
    && EnteredKids(t, stack, entered) && EnteredDone(stack, entered, order)
  }

  // ---- Entering a unit -----------------------------------------------------------------

  function Unexpanded(kids: seq<UnitId>): Stack {
    seq(|kids|, i requires 0 <= i < |kids| => (kids[i], false))
  }

  lemma UnexpandedMembers(kids: seq<UnitId>)
    ensures forall e: (UnitId, bool) :: e in Unexpanded(kids) <==> !e.1 && e.0 in kids
  {
    forall e: (UnitId, bool) | !e.1 && e.0 in kids ensures e in Unexpanded(kids) {
      var i :| 0 <= i < |kids| && kids[i] == e.0;
      assert Unexpanded(kids)[i] == e;
    }
  }

  lemma AppendMembers<T>(a: seq<T>, b: seq<T>)
    ensures forall x :: x in a + b <==> x in a || x in b
  {
  }

  lemma InStack(stack: Stack, e: (UnitId, bool))
    requires e in stack
    ensures OnStack(stack, e.0)
  {
    if e.1 {
      assert e == (e.0, true);
    } else {
      assert e == (e.0, false);
    }
  }

  /** The tributaries of a unit on the stack that is not entered are new to the walk. */
  lemma FreshKids(t: RankedTree, rest: Stack, id: UnitId, entered: set<UnitId>, kid: UnitId)
    requires ReachedThroughParent(t, rest + [(id, false)], entered) && id !in entered && kid in t.Kids(id)
    ensures kid !in entered && !OnStack(rest, kid) && kid != id
  {
    AppendMembers(rest, [(id, false)]);
    assert OnStack(rest + [(id, false)], id);
  }

  lemma EnteredStackDistinct(t: RankedTree, rest: Stack, id: UnitId, kids: seq<UnitId>, entered: set<UnitId>)
    requires DistinctIds(rest + [(id, false)]) && Distinct(kids)
    requires ReachedThroughParent(t, rest + [(id, false)], entered) && id !in entered
    requires forall k :: k in kids ==> k in t.Kids(id)
    ensures DistinctIds(rest + [(id, true)] + Unexpanded(kids))
  {
    var was, now := rest + [(id, false)], rest + [(id, true)] + Unexpanded(kids);
    forall i, j | 0 <= i < j < |now| ensures now[i].0 != now[j].0 {
      if j <= |rest| {
        assert was[i].0 == now[i].0 && was[j].0 == now[j].0;
      } else {
        var kid := kids[j - |rest| - 1];
        assert now[j] == (kid, false);
        FreshKids(t, rest, id, entered, kid);
        if i < |rest| {
          assert now[i] == rest[i];
          InStack(rest, rest[i]);
        } else if i > |rest| {
          assert now[i] == (kids[i - |rest| - 1], false);
        }
      }
    }
  }

  /** The entries after entering: the old ones, the unit now expanded, its tributaries unexpanded. */
  lemma EnteredMembers(rest: Stack, id: UnitId, kids: seq<UnitId>)
    ensures forall e :: e in rest + [(id, true)] + Unexpanded(kids) <==>
        e in rest || e == (id, true) || (!e.1 && e.0 in kids)
    ensures forall e :: e in rest + [(id, false)] <==> e in rest || e == (id, false)
  {
    UnexpandedMembers(kids);
    AppendMembers(rest + [(id, true)], Unexpanded(kids));
    AppendMembers(rest, [(id, true)]);
    AppendMembers(rest, [(id, false)]);
  }

  /** Expanding an unexpanded unit keeps everything. */
  lemma Enter(t: RankedTree, rest: Stack, id: UnitId, kids: seq<UnitId>, entered: set<UnitId>, order: map<UnitId, nat>)
    requires t.Valid() && Walking(t, rest + [(id, false)], entered, order)
    requires KidsOf(t, id, kids)
    ensures id !in entered
    ensures Walking(t, rest + [(id, true)] + Unexpanded(kids), entered + {id}, order)
  {
    EnteredMembers(rest, id, kids);
    assert (id, false) in rest + [(id, false)];
    EnteredStackDistinct(t, rest, id, kids, entered);
    EnterFits(t, rest, id, kids, entered, order);
    EnterReached(t, rest, id, kids, entered);
    EnterKidsAbove(t, rest, id, kids, order);
  }

  lemma EnterFits(t: RankedTree, rest: Stack, id: UnitId, kids: seq<UnitId>, entered: set<UnitId>,
                  order: map<UnitId, nat>)
    requires t.Valid() && Walking(t, rest + [(id, false)], entered, order) && id !in entered
    requires forall k :: k in kids <==> k in t.Kids(id)
    ensures EntriesFit(rest + [(id, true)] + Unexpanded(kids), entered + {id}, order)
    ensures EnteredKids(t, rest + [(id, true)] + Unexpanded(kids), entered + {id})
    ensures EnteredDone(rest + [(id, true)] + Unexpanded(kids), entered + {id}, order)
    ensures InTree(t, rest + [(id, true)] + Unexpanded(kids), entered + {id}, order)
  {
    EnteredMembers(rest, id, kids);
    NotBelow(rest, (id, false));
    forall e | e in rest ensures e.0 != id {
      InStack(rest, e);
    }
    forall kid | kid in t.Kids(id) ensures kid !in entered && kid != id {
      FreshKids(t, rest, id, entered, kid);
    }
    forall e | e in rest + [(id, true)] + Unexpanded(kids)
      ensures if e.1 then e.0 in entered + {id} && e.0 !in order else e.0 !in entered + {id}
      ensures e.0 in t.parent
    {
      if e in rest {
        assert e in rest + [(id, false)];
      } else if e != (id, true) {
        assert !e.1 && e.0 in kids;
        var i :| 0 <= i < |kids| && kids[i] == e.0;
        assert kids[i] in t.Kids(id);
      }
    }
    assert (id, false) in rest + [(id, false)];
  }

  /** No other entry names the unit on top. */
  lemma NotBelow(rest: Stack, top: (UnitId, bool))
    requires DistinctIds(rest + [top])
    ensures !OnStack(rest, top.0)
  {
    var stack := rest + [top];
    forall e | e in rest ensures e.0 != top.0 {
      var i :| 0 <= i < |rest| && rest[i] == e;
      assert stack[i] == e && stack[|rest|] == top;
    }
  }

  lemma EnterReached(t: RankedTree, rest: Stack, id: UnitId, kids: seq<UnitId>, entered: set<UnitId>)
    requires t.Valid() && ReachedThroughParent(t, rest + [(id, false)], entered)
    requires forall k :: k in kids <==> k in t.Kids(id)
    ensures ReachedThroughParent(t, rest + [(id, true)] + Unexpanded(kids), entered + {id})
  {
    EnteredMembers(rest, id, kids);
    var was, now := rest + [(id, false)], rest + [(id, true)] + Unexpanded(kids);
    forall up, kid | kid in t.Kids(up) && (kid in entered + {id} || OnStack(now, kid)) ensures up in entered + {id} {
      assert (id, false) in was;
      if kid in kids {
        assert t.parent[kid] == Some(id) == Some(up);
      } else {
        assert kid in entered || OnStack(was, kid);
      }
    }
  }

  lemma EnterKidsAbove(t: RankedTree, rest: Stack, id: UnitId, kids: seq<UnitId>, order: map<UnitId, nat>)
    requires KidsAbove(t, rest + [(id, false)], order)
    requires forall k :: k in kids <==> k in t.Kids(id)
    ensures KidsAbove(t, rest + [(id, true)] + Unexpanded(kids), order)
  {
    var was, now := rest + [(id, false)], rest + [(id, true)] + Unexpanded(kids);
    forall i, kid | 0 <= i < |now| && now[i].1 && kid in t.Kids(now[i].0)
      ensures kid in order || OnStack(now[i + 1..], kid)
    {
      if i < |rest| {
        assert was[i] == now[i] && was[i + 1..] == rest[i + 1..] + [(id, false)];
        assert now[i + 1..] == rest[i + 1..] + [(id, true)] + Unexpanded(kids);
        EnteredMembers(rest[i + 1..], id, kids);
      } else {
        assert now[|rest| + 1..] == Unexpanded(kids);
        UnexpandedMembers(kids);
      }
    }
  }

  // ---- Ordering a unit ----------------------------------------------------------------

  /** Ordering the expanded unit on top of the stack keeps everything. */
  lemma Finish(t: RankedTree, rest: Stack, id: UnitId, v: nat, entered: set<UnitId>, order: map<UnitId, nat>)
    requires t.Valid() && Walking(t, rest + [(id, true)], entered, order) && StrahlerRule(t.Kids(id), order, v)
    ensures id !in order && Walking(t, rest, entered, order[id := v])
  {
    AppendMembers(rest, [(id, true)]);
    assert (id, true) in rest + [(id, true)];
    NotBelow(rest, (id, true));
    FinishRule(t, id, v, order);
    FinishKidsAbove(t, rest, id, v, order);
    FinishFits(t, rest, id, v, entered, order);
    FinishDistinct(rest, (id, true));
  }

  lemma FinishDistinct(rest: Stack, top: (UnitId, bool))
    requires DistinctIds(rest + [top])
    ensures DistinctIds(rest)
  {
    var stack := rest + [top];
    forall i, j | 0 <= i < j < |rest| ensures rest[i].0 != rest[j].0 {
      assert stack[i] == rest[i] && stack[j] == rest[j];
    }
  }

  lemma FinishFits(t: RankedTree, rest: Stack, id: UnitId, v: nat, entered: set<UnitId>, order: map<UnitId, nat>)
    requires InTree(t, rest + [(id, true)], entered, order) && EntriesFit(rest + [(id, true)], entered, order)
    requires ReachedThroughParent(t, rest + [(id, true)], entered) && EnteredKids(t, rest + [(id, true)], entered)
    requires EnteredDone(rest + [(id, true)], entered, order) && !OnStack(rest, id)
    ensures InTree(t, rest, entered, order[id := v]) && EntriesFit(rest, entered, order[id := v])
    ensures ReachedThroughParent(t, rest, entered) && EnteredKids(t, rest, entered)
    ensures EnteredDone(rest, entered, order[id := v])
  {
    AppendMembers(rest, [(id, true)]);
    assert (id, true) in rest + [(id, true)];
    forall e | e in rest ensures e.0 != id {
      InStack(rest, e);
    }
  }

  /** When a unit is ordered all its tributaries are: the default order is never taken. */
  lemma KidsOrdered(t: RankedTree, rest: Stack, id: UnitId, order: map<UnitId, nat>)
    requires KidsAbove(t, rest + [(id, true)], order)
    ensures t.Kids(id) <= order.Keys
  {
    var stack := rest + [(id, true)];
    assert stack[|rest|] == (id, true) && stack[|rest| + 1..] == [];
    forall kid | kid in t.Kids(id) ensures kid in order {
      assert kid in t.Kids(stack[|rest|].0);
    }
  }

  lemma FinishRule(t: RankedTree, id: UnitId, v: nat, order: map<UnitId, nat>)
    requires RuleHolds(t, order) && StrahlerRule(t.Kids(id), order, v) && id !in order
    ensures RuleHolds(t, order[id := v])
  {
    var order' := order[id := v];
    forall x | x in order' ensures StrahlerRule(t.Kids(x), order', order'[x]) {
      RuleStays(t.Kids(x), order, order', order'[x]);
    }
  }

  lemma SameTwice(kids: set<UnitId>, order: map<UnitId, nat>, order': map<UnitId, nat>, m: nat)
    requires kids <= order.Keys && kids <= order'.Keys && forall k :: k in kids ==> order'[k] == order[k]
    ensures Twice(kids, order', m) <==> Twice(kids, order, m)
  {
    if Twice(kids, order, m) {
      var a, b :| a in kids && b in kids && a != b && order[a] == m && order[b] == m;
      assert order'[a] == m && order'[b] == m;
    }
  }

  lemma RuleStays(kids: set<UnitId>, order: map<UnitId, nat>, order': map<UnitId, nat>, v: nat)
    requires StrahlerRule(kids, order, v) && forall k :: k in kids ==> k in order' && order'[k] == order[k]
    ensures StrahlerRule(kids, order', v)
  {
    forall k | k in kids ensures k in order'.Keys {
    }
    if kids != {} {
      var m: nat :| LargestOf(kids, order, m) && v == if Twice(kids, order, m) then m + 1 else m;
      var a :| a in kids && order[a] == m;
      assert order'[a] == m;
      assert LargestOf(kids, order', m);
      SameTwice(kids, order, order', m);
    }
  }

  lemma FinishKidsAbove(t: RankedTree, rest: Stack, id: UnitId, v: nat, order: map<UnitId, nat>)
    requires KidsAbove(t, rest + [(id, true)], order)
    ensures KidsAbove(t, rest, order[id := v])
  {
    var stack := rest + [(id, true)];
    forall i, kid | 0 <= i < |rest| && rest[i].1 && kid in t.Kids(rest[i].0)
      ensures kid in order[id := v] || OnStack(rest[i + 1..], kid)
    {
      assert stack[i] == rest[i] && stack[i + 1..] == rest[i + 1..] + [(id, true)];
      AppendMembers(rest[i + 1..], [(id, true)]);
    }
  }

  // ---- The walk -----------------------------------------------------------------------

  /** The largest order among the first tributaries, and how often it occurs. */
  ghost predicate Tallied(kids: seq<UnitId>, order: map<UnitId, nat>, max: nat, count: nat)
    requires forall i :: 0 <= i < |kids| ==> kids[i] in order
  {
    if kids == [] then max == 0 && count == 0
    else
      && (forall i :: 0 <= i < |kids| ==> order[kids[i]] <= max)
      && count >= 1 && (exists i :: 0 <= i < |kids| && order[kids[i]] == max)
      && (count > 1 <==> exists i, j :: 0 <= i < j < |kids| && order[kids[i]] == max && order[kids[j]] == max)
  }

  lemma TallyNext(kids: seq<UnitId>, kid: UnitId, order: map<UnitId, nat>, max: nat, count: nat)
    requires (forall i :: 0 <= i < |kids| ==> kids[i] in order) && kid in order
    requires Tallied(kids, order, max, count) && order[kid] >= 1
    ensures forall i :: 0 <= i < |kids| + 1 ==> (kids + [kid])[i] in order
    ensures order[kid] > max ==> Tallied(kids + [kid], order, order[kid], 1)
    ensures order[kid] == max ==> Tallied(kids + [kid], order, max, count + 1)
    ensures order[kid] < max ==> Tallied(kids + [kid], order, max, count)
  {
    var longer := kids + [kid];
    assert longer[|kids|] == kid;
    forall i | 0 <= i < |longer| ensures longer[i] in order {
      assert i < |kids| ==> longer[i] == kids[i];
    }
    if kids != [] {
      var i :| 0 <= i < |kids| && order[kids[i]] == max;
      assert longer[i] == kids[i];
    }
    if order[kid] < max && count > 1 {
      var i, j :| 0 <= i < j < |kids| && order[kids[i]] == max && order[kids[j]] == max;
      assert longer[i] == kids[i] && longer[j] == kids[j];
    }
    forall i, j | 0 <= i < j < |kids| ensures longer[i] == kids[i] && longer[j] == kids[j] {
    }
  }

  /** The tally of all tributaries gives the order the rule asks for. */
  lemma TallyIsRule(t: RankedTree, id: UnitId, kids: seq<UnitId>, order: map<UnitId, nat>, max: nat, count: nat)
    requires kids != [] && Distinct(kids) && (forall k :: k in kids <==> k in t.Kids(id))
    requires t.Kids(id) <= order.Keys && (forall i :: 0 <= i < |kids| ==> kids[i] in order)
    requires Tallied(kids, order, max, count)
    ensures StrahlerRule(t.Kids(id), order, if count > 1 then max + 1 else max)
  {
    var tributaries := t.Kids(id);
    assert kids[0] in tributaries;
    assert LargestOf(tributaries, order, max);
    if count > 1 {
      var i, j :| 0 <= i < j < |kids| && order[kids[i]] == max && order[kids[j]] == max;
      assert kids[i] in tributaries && kids[j] in tributaries;
    }
    if Twice(tributaries, order, max) {
      var a, b :| a in tributaries && b in tributaries && a != b && order[a] == max && order[b] == max;
      var i :| 0 <= i < |kids| && kids[i] == a;
      var j :| 0 <= j < |kids| && kids[j] == b;
      assert i < j || j < i;
    }
  }

  /** The order of a confluence, as the walk computes it. */
  method Combine(ghost t: RankedTree, ghost id: UnitId, kids: seq<UnitId>, order: map<UnitId, nat>) returns (v: nat)
    requires kids != [] && Distinct(kids) && (forall k :: k in kids <==> k in t.Kids(id))
    requires t.Kids(id) <= order.Keys && forall i :: 0 <= i < |kids| ==> kids[i] in order && order[kids[i]] >= 1
    ensures StrahlerRule(t.Kids(id), order, v) && v >= 1
  {
    var max, maxCount := 0, 0;
    for i := 0 to |kids|
      invariant Tallied(kids[..i], order, max, maxCount)
      invariant i > 0 ==> max >= 1
    {
      var kid := kids[i];
      assert kid in kids && kid in order;
      var o := if kid in order then order[kid] else 1;
      assert kids[..i + 1] == kids[..i] + [kid];
      TallyNext(kids[..i], kid, order, max, maxCount);
      if o > max {
        max, maxCount := o, 1;
      } else if o == max {
        maxCount := maxCount + 1;
      }
    }
    assert kids[..|kids|] == kids;
    TallyIsRule(t, id, kids, order, max, maxCount);
    v := if maxCount > 1 then max + 1 else max;
  }

  // ---- From listed units to orders ----------------------------------------------------

  ghost predicate DistinctUnits(units: seq<DrainageUnit>) {
    forall i, j :: 0 <= i < j < |units| ==> units[i].id != units[j].id
  }

  ghost function Parents(units: seq<DrainageUnit>): map<UnitId, Option<UnitId>>
    requires DistinctUnits(units)
  {
    map u | u in units :: u.id := u.downstream
  }

  /** Units listed once each, in any order, that all drain to the terminal without a cycle. */
  ghost predicate DrainageTree(units: seq<DrainageUnit>, terminal: UnitId) {
    && DistinctUnits(units)
    && (exists u :: u in units && u.id == terminal)
    && (forall u :: u in units ==> (u.downstream.None? <==> u.id == terminal))
    && exists rank :: RankedTree(Parents(units), rank).Valid()
  }

  ghost function TreeOf(units: seq<DrainageUnit>, terminal: UnitId): (t: RankedTree)
    requires DrainageTree(units, terminal)
    ensures t.Valid() && t.parent == Parents(units)
  {
    var rank :| RankedTree(Parents(units), rank).Valid();
    RankedTree(Parents(units), rank)
  }

  /** The table lists, under every unit, the units that drain to it. */
  ghost predicate Grouped(children: map<UnitId, seq<UnitId>>, units: seq<DrainageUnit>) {
    forall id, k :: k in KidList(children, id) <==> DrainageUnit(k, Some(id)) in units
  }

  ghost predicate DistinctKids(children: map<UnitId, seq<UnitId>>) {
    forall id :: Distinct(KidList(children, id))
  }

  lemma GroupNext(children: map<UnitId, seq<UnitId>>, units: seq<DrainageUnit>, unit: DrainageUnit, down: UnitId)
    requires Grouped(children, units) && DistinctKids(children)
    requires (forall u :: u in units ==> u.id != unit.id) && unit.downstream == Some(down)
    ensures Grouped(children[down := KidList(children, down) + [unit.id]], units + [unit])
    ensures DistinctKids(children[down := KidList(children, down) + [unit.id]])
  {
    var kids := KidList(children, down);
    var children' := children[down := kids + [unit.id]];
    forall id, k ensures k in KidList(children', id) <==> DrainageUnit(k, Some(id)) in units + [unit] {
      GroupedAt(children, units, unit, down, id, k);
    }
    forall id ensures Distinct(KidList(children', id)) {
      if id == down {
        forall i | 0 <= i < |kids| ensures kids[i] != unit.id {
          assert kids[i] in KidList(children, down);
        }
        assert Distinct(kids);
      } else {
        assert KidList(children', id) == KidList(children, id);
      }
    }
  }

  lemma GroupedAt(children: map<UnitId, seq<UnitId>>, units: seq<DrainageUnit>, unit: DrainageUnit, down: UnitId,
                  id: UnitId, k: UnitId)
    requires unit.downstream == Some(down)
    requires k in KidList(children, id) <==> DrainageUnit(k, Some(id)) in units
    ensures k in KidList(children[down := KidList(children, down) + [unit.id]], id)
            <==> DrainageUnit(k, Some(id)) in units + [unit]
  {
    AppendMembers(units, [unit]);
    AppendMembers(KidList(children, down), [unit.id]);
    assert unit == DrainageUnit(unit.id, Some(down));
  }

  lemma GroupSame(children: map<UnitId, seq<UnitId>>, units: seq<DrainageUnit>, unit: DrainageUnit)
    requires Grouped(children, units) && unit.downstream.None?
    ensures Grouped(children, units + [unit])
  {
    AppendMembers(units, [unit]);
  }

  /** Group the units by the unit they drain to, and find the terminal. */
  method Children(units: seq<DrainageUnit>, given: UnitId)
    returns (children: map<UnitId, seq<UnitId>>, terminal: UnitId)
    requires DistinctUnits(units)
    ensures DistinctKids(children) && Grouped(children, units)
    ensures terminal == given || exists u :: u in units && u.downstream.None? && u.id == terminal
  {
    children := map[];
    terminal := given;
    for i := 0 to |units|
      invariant DistinctKids(children) && Grouped(children, units[..i])
      invariant terminal == given || exists u :: u in units && u.downstream.None? && u.id == terminal
    {
      var unit := units[i];
      assert units[..i + 1] == units[..i] + [unit];
      match unit.downstream
      case Some(down) =>
        GroupNext(children, units[..i], unit, down);
        children := children[down := KidList(children, down) + [unit.id]];
      case None =>
        GroupSame(children, units[..i], unit);
        terminal := unit.id;
    }
    assert units[..|units|] == units;
  }

  lemma KidIsUnit(units: seq<DrainageUnit>, t: RankedTree, id: UnitId, k: UnitId)
    requires DistinctUnits(units) && t.parent == Parents(units)
    ensures k in t.Kids(id) <==> DrainageUnit(k, Some(id)) in units
  {
    if k in t.Kids(id) {
      var u :| u in units && u.id == k && u.downstream == Some(id);
      assert u == DrainageUnit(k, Some(id));
    }
    if DrainageUnit(k, Some(id)) in units {
      var u := DrainageUnit(k, Some(id));
      assert u.id in t.parent && t.parent[u.id] == u.downstream;
    }
  }

  lemma ChildrenAreKids(units: seq<DrainageUnit>, t: RankedTree, children: map<UnitId, seq<UnitId>>)
    requires DistinctUnits(units) && t.parent == Parents(units) && DistinctKids(children) && Grouped(children, units)
    ensures KidTable(children, t)
  {
    forall id | id in t.parent ensures KidsOf(t, id, KidList(children, id)) {
      forall k ensures k in KidList(children, id) <==> k in t.Kids(id) {
        KidIsUnit(units, t, id, k);
      }
    }
  }

  /** Push the tributaries, unexpanded, in order. */
  method PushKids(stack: Stack, kids: seq<UnitId>) returns (pushed: Stack)
    ensures pushed == stack + Unexpanded(kids)
  {
    pushed := stack;
    for i := 0 to |kids|
      invariant pushed == stack + Unexpanded(kids[..i])
    {
      pushed := pushed + [(kids[i], false)];
      assert Unexpanded(kids[..i + 1]) == Unexpanded(kids[..i]) + [(kids[i], false)];
    }
    assert kids[..|kids|] == kids;
  }

  /** The only unit that drains nowhere is the terminal. */
  ghost predicate OnlyTerminal(t: RankedTree, terminal: UnitId) {
    terminal in t.parent && forall id :: id in t.parent ==> (t.parent[id].None? <==> id == terminal)
  }

  lemma TreeHasOneTerminal(units: seq<DrainageUnit>, terminal: UnitId)
    requires DrainageTree(units, terminal)
    ensures OnlyTerminal(TreeOf(units, terminal), terminal)
  {
    var t := TreeOf(units, terminal);
    forall id | id in t.parent ensures t.parent[id].None? <==> id == terminal {
      var u :| u in units && u.id == id;
      assert t.parent[u.id] == u.downstream;
    }
  }

  /** With an empty stack everything upstream of an entered unit is entered. */
  lemma {:induction false} AllEntered(t: RankedTree, terminal: UnitId, entered: set<UnitId>, id: UnitId)
    requires t.Valid() && OnlyTerminal(t, terminal)
    requires EnteredKids(t, [], entered) && terminal in entered && id in t.parent
    ensures id in entered
    decreases t.rank[id]
  {
    if id != terminal {
      AllEntered(t, terminal, entered, t.parent[id].value);
      assert id in t.Kids(t.parent[id].value);
    }
  }

  /** A finished walk has ordered every unit by the rule. */
  lemma WalkDone(t: RankedTree, terminal: UnitId, entered: set<UnitId>, order: map<UnitId, nat>)
    requires t.Valid() && OnlyTerminal(t, terminal)
    requires Walking(t, [], entered, order) && terminal in entered
    ensures IsStrahler(t, order)
  {
    forall id | id in t.parent ensures id in order {
      AllEntered(t, terminal, entered, id);
    }
  }

  lemma StartWalk(t: RankedTree, terminal: UnitId)
    requires terminal in t.parent && t.parent[terminal].None?
    ensures Walking(t, [(terminal, false)], {}, map[])
  {
    assert [(terminal, false)][0] == (terminal, false);
  }

  ghost predicate Positive(order: map<UnitId, nat>) {
    forall id :: id in order ==> order[id] >= 1
  }

  /** Pops left: each unit is entered once and ordered once. */
  ghost function Left(t: RankedTree, entered: set<UnitId>, order: map<UnitId, nat>): int {
    2 * |t.parent.Keys| - |entered| - |order.Keys|
  }

  lemma LeftIsNat(t: RankedTree, stack: Stack, entered: set<UnitId>, order: map<UnitId, nat>)
    requires InTree(t, stack, entered, order)
    ensures Left(t, entered, order) >= 0
  {
    SubsetSize(order.Keys, t.parent.Keys);
    SubsetSize(entered, t.parent.Keys);
  }

  lemma OrderOneMore(order: map<UnitId, nat>, id: UnitId, v: nat)
    requires id !in order
    ensures |order[id := v].Keys| == |order.Keys| + 1
  {
    assert order[id := v].Keys == order.Keys + {id};
  }

  /** An unexpanded entry comes off the stack: the unit is entered, its tributaries go on top. */
  method EnterUnit(ghost t: RankedTree, rest: Stack, id: UnitId, kids: seq<UnitId>, ghost entered: set<UnitId>,
                   ghost order: map<UnitId, nat>)
    returns (stack: Stack)
    requires t.Valid() && Walking(t, rest + [(id, false)], entered, order)
    requires KidsOf(t, id, kids)
    ensures id !in entered && Walking(t, stack, entered + {id}, order)
    ensures Left(t, entered + {id}, order) == Left(t, entered, order) - 1 >= 0
    ensures forall e :: e in rest ==> e in stack
  {
    Enter(t, rest, id, kids, entered, order);
    EnteredMembers(rest, id, kids);
    stack := PushKids(rest + [(id, true)], kids);
    LeftIsNat(t, stack, entered + {id}, order);
  }

  lemma TributariesReady(t: RankedTree, id: UnitId, kids: seq<UnitId>, order: map<UnitId, nat>)
    requires KidsOf(t, id, kids) && t.Kids(id) <= order.Keys && Positive(order)
    ensures forall i :: 0 <= i < |kids| ==> kids[i] in order && order[kids[i]] >= 1
  {
    forall i | 0 <= i < |kids| ensures kids[i] in order && order[kids[i]] >= 1 {
      var k: UnitId := kids[i];
      assert k in kids;
      assert k in t.Kids(id);
      assert k in order.Keys && k in order;
    }
  }

  /** An expanded entry comes off the stack: the unit is ordered. */
  method OrderUnit(ghost t: RankedTree, ghost rest: Stack, id: UnitId, kids: seq<UnitId>, ghost entered: set<UnitId>,
                   order: map<UnitId, nat>)
    returns (order': map<UnitId, nat>)
    requires t.Valid() && Walking(t, rest + [(id, true)], entered, order) && Positive(order)
    requires KidsOf(t, id, kids)
    ensures id in entered && Walking(t, rest, entered, order') && Positive(order')
    ensures Left(t, entered, order') == Left(t, entered, order) - 1 >= 0
  {
    KidsOrdered(t, rest, id, order);
    assert (rest + [(id, true)])[|rest|] == (id, true);
    var v := 1;
    if kids != [] {
      TributariesReady(t, id, kids, order);
      v := Combine(t, id, kids, order);
    } else {
      NoKids(t, id, kids, order);
    }
    Finish(t, rest, id, v, entered, order);
    order' := order[id := v];
    OrderOneMore(order, id, v);
    LeftIsNat(t, rest, entered, order');
  }

  lemma NoKids(t: RankedTree, id: UnitId, kids: seq<UnitId>, order: map<UnitId, nat>)
    requires kids == [] && forall k :: k in kids <==> k in t.Kids(id)
    ensures StrahlerRule(t.Kids(id), order, 1)
  {
    forall k: UnitId ensures k !in t.Kids(id) {
      assert k !in kids;
    }
    assert t.Kids(id) == {};
  }

  lemma TopInTree(t: RankedTree, rest: Stack, top: (UnitId, bool), entered: set<UnitId>, order: map<UnitId, nat>)
    requires InTree(t, rest + [top], entered, order)
    ensures top.0 in t.parent
  {
    assert (rest + [top])[|rest|] == top;
  }

  /** The terminal is entered or waiting to be. */
  lemma StaysReached(terminal: UnitId, rest: Stack, id: UnitId, expanded: bool, entered: set<UnitId>, stack: Stack)
    requires terminal in entered || OnStack(rest + [(id, expanded)], terminal)
    requires forall e :: e in rest ==> e in stack
    ensures terminal in entered + {id} || OnStack(stack, terminal)
  {
    AppendMembers(rest, [(id, expanded)]);
  }

  /**
    `strahler_orders`: the walk ends on every drainage tree with the one Strahler ordering of
    all its units.
   */
  method StrahlerOrders(units: seq<DrainageUnit>, given: UnitId) returns (order: map<UnitId, nat>)
    requires DrainageTree(units, given)
    ensures IsStrahler(TreeOf(units, given), order)
  {
    ghost var t := TreeOf(units, given);
    var children, terminal := Children(units, given);
    ChildrenAreKids(units, t, children);
    TreeHasOneTerminal(units, given);
    order := Walk(t, children, terminal);
  }

  lemma ListedKids(t: RankedTree, children: map<UnitId, seq<UnitId>>, id: UnitId)
    requires KidTable(children, t) && id in t.parent
    ensures KidsOf(t, id, KidList(children, id))
  {
  }

  /** One round of the walk. */
  method Pop(ghost t: RankedTree, ghost terminal: UnitId, rest: Stack, id: UnitId, expanded: bool, kids: seq<UnitId>,
             ghost entered: set<UnitId>, order: map<UnitId, nat>)
    returns (stack: Stack, ghost entered': set<UnitId>, order': map<UnitId, nat>)
    requires t.Valid() && Walking(t, rest + [(id, expanded)], entered, order) && Positive(order) && KidsOf(t, id, kids)
    requires terminal in entered || OnStack(rest + [(id, expanded)], terminal)
    ensures Walking(t, stack, entered', order') && Positive(order')
    ensures terminal in entered' || OnStack(stack, terminal)
    ensures 0 <= Left(t, entered', order') < Left(t, entered, order)
  {
    stack, entered', order' := rest, entered, order;
    if !expanded {
      stack := EnterUnit(t, rest, id, kids, entered, order);
      entered' := entered + {id};
    } else {
      order' := OrderUnit(t, rest, id, kids, entered, order);
    }
    StaysReached(terminal, rest, id, expanded, entered, stack);
  }

  method PopTop(stack: Stack) returns (rest: Stack, id: UnitId, expanded: bool)
    requires stack != []
    ensures stack == rest + [(id, expanded)]
  {
    rest := stack[..|stack| - 1];
    id, expanded := stack[|stack| - 1].0, stack[|stack| - 1].1;
  }

  method Walk(ghost t: RankedTree, children: map<UnitId, seq<UnitId>>, terminal: UnitId)
    returns (order: map<UnitId, nat>)
    requires t.Valid() && OnlyTerminal(t, terminal) && KidTable(children, t)
    ensures IsStrahler(t, order)
  {
    order := map[];
    var stack: Stack := [(terminal, false)];
    ghost var entered: set<UnitId> := {};
    StartWalk(t, terminal);
    while stack != []
      invariant Walking(t, stack, entered, order) && Positive(order)
      invariant terminal in entered || OnStack(stack, terminal)
      decreases Left(t, entered, order)
    {
      var rest, id, expanded := PopTop(stack);
      TopInTree(t, rest, (id, expanded), entered, order);
      ListedKids(t, children, id);
      stack, entered, order := Pop(t, terminal, rest, id, expanded, KidList(children, id), entered, order);
    }
    WalkDone(t, terminal, entered, order);
  }

  // ---- Where the units come from, and their order in the list -------------------------

  lemma SameParents(a: seq<DrainageUnit>, b: seq<DrainageUnit>)
    requires DistinctUnits(a) && DistinctUnits(b) && forall u :: u in a <==> u in b
    ensures Parents(a) == Parents(b)
  {
    forall u | u in a ensures Parents(a)[u.id] == u.downstream == Parents(b)[u.id] {
      assert u in b;
    }
  }

  /** The orders do not depend on the order in which units and tributaries are listed. */
  lemma ListingDoesNotMatter(a: seq<DrainageUnit>, b: seq<DrainageUnit>, terminal: UnitId, x: map<UnitId, nat>,
                             y: map<UnitId, nat>)
    requires DrainageTree(a, terminal) && DrainageTree(b, terminal) && forall u :: u in a <==> u in b
    requires IsStrahler(TreeOf(a, terminal), x) && IsStrahler(TreeOf(b, terminal), y)
    ensures x == y
  {
    SameParents(a, b);
    var s, t := TreeOf(a, terminal), TreeOf(b, terminal);
    forall id ensures s.Kids(id) == t.Kids(id) {
    }
    StrahlerUnique(s, x, y);
  }

  /** The units of a traversal, each with the unit it was reached from. */
  function Traversed(u: UpstreamUnits): seq<DrainageUnit> {
    seq(|u.units|, i requires 0 <= i < |u.units| =>
      DrainageUnit(u.units[i], if u.units[i] in u.downstream then Some(u.downstream[u.units[i]]) else None))
  }

  function Positions(units: seq<UnitId>): (rank: map<UnitId, nat>)
    requires Distinct(units)
    ensures rank.Keys == (set id | id in units)
    ensures forall i :: 0 <= i < |units| ==> units[i] in rank && rank[units[i]] == i
  {
    if units == [] then map[]
    else
      var last := |units| - 1;
      var front := Positions(units[..last]);
      assert units == units[..last] + [units[last]];
      assert forall i :: 0 <= i < last ==> units[..last][i] == units[i];
      front[units[last] := last]
  }

  /** Every upstream traversal gives a drainage tree, so the walk ends on all of them. */
  lemma TraversalIsDrainageTree(g: Graph, terminal: UnitId, u: UpstreamUnits)
    requires g.Valid() && |u.units| > 0 && u.units[0] == terminal && IsTree(g, terminal, u.units, u.downstream)
    ensures DrainageTree(Traversed(u), terminal)
  {
    var units := Traversed(u);
    var t := RankedTree(Parents(units), Positions(u.units));
    assert units[0].id == terminal && units[0] in units;
    forall x | x in units ensures x.downstream.None? <==> x.id == terminal {
      var i :| 0 <= i < |units| && units[i] == x;
      assert x.id == u.units[i];
    }
    TraversalRanks(g, terminal, u);
  }

  lemma ParentAt(u: UpstreamUnits, id: UnitId)
    requires DistinctUnits(Traversed(u)) && id in Parents(Traversed(u))
    ensures exists i ::
        && 0 <= i < |u.units|
        && u.units[i] == id
        && Parents(Traversed(u))[id] == Traversed(u)[i].downstream
  {
    var units := Traversed(u);
    var x :| x in units && x.id == id;
    var i :| 0 <= i < |units| && units[i] == x;
    assert Parents(units)[x.id] == x.downstream;
    assert u.units[i] == id;
  }

  lemma EarlierPosition(u: UpstreamUnits, i: nat)
    requires Distinct(u.units) && i < |u.units| && u.units[i] in u.downstream
    requires u.downstream[u.units[i]] in u.units[..i]
    ensures u.downstream[u.units[i]] in Positions(u.units) && Positions(u.units)[u.downstream[u.units[i]]] < i
  {
    var down := u.downstream[u.units[i]];
    var j :| 0 <= j < i && u.units[..i][j] == down;
    assert u.units[j] == down;
  }

  lemma TraversedDistinct(u: UpstreamUnits)
    requires Distinct(u.units)
    ensures DistinctUnits(Traversed(u))
  {
  }

  /** A unit comes after the one it drains to. */
  lemma RankGrows(u: UpstreamUnits, id: UnitId)
    requires Distinct(u.units) && DistinctUnits(Traversed(u)) && id in Parents(Traversed(u))
    requires forall i :: 0 <= i < |u.units| && u.units[i] in u.downstream ==> u.downstream[u.units[i]] in u.units[..i]
    ensures id in Positions(u.units)
    ensures var p := Parents(Traversed(u))[id];
            p.Some? ==> p.value in Positions(u.units) && Positions(u.units)[p.value] < Positions(u.units)[id]
  {
    ParentAt(u, id);
    var i :| 0 <= i < |u.units| && u.units[i] == id && Parents(Traversed(u))[id] == Traversed(u)[i].downstream;
    if u.units[i] in u.downstream {
      EarlierPosition(u, i);
    }
  }

  lemma TraversalRanks(g: Graph, terminal: UnitId, u: UpstreamUnits)
    requires g.Valid() && IsTree(g, terminal, u.units, u.downstream)
    ensures DistinctUnits(Traversed(u))
    ensures RankedTree(Parents(Traversed(u)), Positions(u.units)).Valid()
  {
    TraversedDistinct(u);
    forall id ensures id in Parents(Traversed(u)) <==> id in Positions(u.units) {
      TraversedId(u, id);
    }
    forall id | id in Parents(Traversed(u))
      ensures var p := Parents(Traversed(u))[id];
              p.Some? ==> p.value in Positions(u.units) && Positions(u.units)[p.value] < Positions(u.units)[id]
    {
      RankGrows(u, id);
    }
  }

  lemma TraversedId(u: UpstreamUnits, id: UnitId)
    requires DistinctUnits(Traversed(u))
    ensures id in Parents(Traversed(u)) <==> id in u.units
  {
    var units := Traversed(u);
    if id in u.units {
      var i :| 0 <= i < |u.units| && u.units[i] == id;
      assert units[i] in units && units[i].id == id;
    }
    if id in Parents(units) {
      var x :| x in units && x.id == id;
      var i :| 0 <= i < |units| && units[i] == x;
      assert u.units[i] == id;
    }
  }
}
