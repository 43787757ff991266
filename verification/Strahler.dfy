/**
  Strahler ordering of a drainage tree: the local rule that defines the order, and what follows
  from it for every ordering that obeys it.
 */
module Strahler {
  import opened Prelude
  import opened Upstream

  /** A unit and the unit it drains to; the terminal drains nowhere. */
  datatype DrainageUnit = DrainageUnit(id: UnitId, downstream: Option<UnitId>)

  // ---- Drainage trees and the Strahler rule -------------------------------------------

  /** Parents, with a rank that grows upstream and so rules out cycles. */
  datatype RankedTree = RankedTree(parent: map<UnitId, Option<UnitId>>, rank: map<UnitId, nat>) {
    ghost predicate Valid() {
      && rank.Keys == parent.Keys
      && forall id :: id in parent && parent[id].Some? ==>
        parent[id].value in parent && rank[parent[id].value] < rank[id]
    }

    function Kids(id: UnitId): set<UnitId> {
      set kid | kid in parent && parent[kid] == Some(id)
    }
  }

  ghost predicate LargestOf(kids: set<UnitId>, order: map<UnitId, nat>, m: nat)
    requires kids <= order.Keys
  {
    (exists k :: k in kids && order[k] == m) && forall k :: k in kids ==> order[k] <= m
  }

  ghost predicate Twice(kids: set<UnitId>, order: map<UnitId, nat>, m: nat)
    requires kids <= order.Keys
  {
    exists a, b :: a in kids && b in kids && a != b && order[a] == m && order[b] == m
  }

  /** Headwaters have order 1; a confluence has its largest tributary's order, one more if two share it. */
  ghost predicate StrahlerRule(kids: set<UnitId>, order: map<UnitId, nat>, v: nat) {
    && kids <= order.Keys
    && if kids == {} then v == 1
       else exists m: nat :: LargestOf(kids, order, m) && v == if Twice(kids, order, m) then m + 1 else m
  }

  /** The rule holds at every unit.  It depends on the set of tributaries, not on their order. */
  ghost predicate IsStrahler(t: RankedTree, order: map<UnitId, nat>) {
    order.Keys == t.parent.Keys && forall id :: id in order ==> StrahlerRule(t.Kids(id), order, order[id])
  }

  lemma {:induction false} OrderUnique(t: RankedTree, x: map<UnitId, nat>, y: map<UnitId, nat>, bound: nat, id: UnitId)
    requires t.Valid() && IsStrahler(t, x) && IsStrahler(t, y) && id in t.parent
    requires forall u :: u in t.rank ==> t.rank[u] <= bound
    ensures x[id] == y[id]
    decreases bound - t.rank[id]
  {
    forall k | k in t.Kids(id) ensures x[k] == y[k] {
      OrderUnique(t, x, y, bound, k);
    }
  }

  lemma {:induction false} RankBound(units: set<UnitId>, rank: map<UnitId, nat>) returns (bound: nat)
    requires units <= rank.Keys
    ensures forall u :: u in units ==> rank[u] <= bound
    decreases |units|
  {
    bound := 0;
    if u :| u in units {
      var rest := RankBound(units - {u}, rank);
      bound := Max(rest, rank[u]);
    }
  }

  /** A drainage tree has exactly one Strahler ordering. */
  lemma StrahlerUnique(t: RankedTree, x: map<UnitId, nat>, y: map<UnitId, nat>)
    requires t.Valid() && IsStrahler(t, x) && IsStrahler(t, y)
    ensures x == y
  {
    var bound := RankBound(t.rank.Keys, t.rank);
    forall id | id in x ensures x[id] == y[id] {
      OrderUnique(t, x, y, bound, id);
    }
  }

  // ---- Headwaters ---------------------------------------------------------------------

  function Pow2(n: nat): (p: nat)
    ensures p > 0
  {
    if n == 0 then 1 else 2 * Pow2(n - 1)
  }

  /** `x` is `id` or drains through it. */
  ghost predicate DrainsThrough(t: RankedTree, x: UnitId, id: UnitId)
    requires t.Valid() && x in t.parent
    decreases t.rank[x]
  {
    x == id || (t.parent[x].Some? && DrainsThrough(t, t.parent[x].value, id))
  }

  /** Headwater units at or upstream of `id`. */
  ghost function Headwaters(t: RankedTree, id: UnitId): set<UnitId>
    requires t.Valid()
  {
    set x | x in t.parent && t.Kids(x) == {} && DrainsThrough(t, x, id)
  }

  lemma {:induction false} DownstreamRank(t: RankedTree, x: UnitId, id: UnitId)
    requires t.Valid() && x in t.parent && DrainsThrough(t, x, id)
    ensures id in t.parent && t.rank[id] <= t.rank[x]
    decreases t.rank[x]
  {
    if x != id {
      DownstreamRank(t, t.parent[x].value, id);
    }
  }

  lemma {:induction false} DrainsThroughParent(t: RankedTree, x: UnitId, kid: UnitId, id: UnitId)
    requires t.Valid() && x in t.parent && kid in t.Kids(id) && DrainsThrough(t, x, kid)
    ensures DrainsThrough(t, x, id)
    decreases t.rank[x]
  {
    if x != kid {
      DrainsThroughParent(t, t.parent[x].value, kid, id);
    }
  }

  /** Water flows through one tributary only. */
  lemma {:induction false} OneTributary(t: RankedTree, x: UnitId, a: UnitId, b: UnitId, id: UnitId)
    requires t.Valid() && x in t.parent && a in t.Kids(id) && b in t.Kids(id) && a != b
    ensures !(DrainsThrough(t, x, a) && DrainsThrough(t, x, b))
    decreases t.rank[x]
  {
    if x == a {
      if DrainsThrough(t, id, b) { DownstreamRank(t, id, b); }
    } else if x == b {
      if DrainsThrough(t, id, a) { DownstreamRank(t, id, a); }
    } else if t.parent[x].Some? {
      OneTributary(t, t.parent[x].value, a, b, id);
    }
  }

  /** Tributaries have disjoint headwaters, all of them upstream of the confluence. */
  lemma TributaryHeadwaters(t: RankedTree, a: UnitId, b: UnitId, id: UnitId)
    requires t.Valid() && a in t.Kids(id) && b in t.Kids(id)
    ensures |Headwaters(t, a)| <= |Headwaters(t, id)|
    ensures a != b ==> |Headwaters(t, a)| + |Headwaters(t, b)| <= |Headwaters(t, id)|
  {
    forall x, k | k in {a, b} && x in Headwaters(t, k) ensures x in Headwaters(t, id) {
      DrainsThroughParent(t, x, k, id);
    }
    SubsetSize(Headwaters(t, a), Headwaters(t, id));
    if a != b {
      forall x | x in t.parent ensures !(x in Headwaters(t, a) && x in Headwaters(t, b)) {
        OneTributary(t, x, a, b, id);
      }
      assert Headwaters(t, a) !! Headwaters(t, b);
      SubsetSize(Headwaters(t, a) + Headwaters(t, b), Headwaters(t, id));
    }
  }

  /** Enough headwaters for the order of `id`. */
  ghost predicate Supplied(t: RankedTree, order: map<UnitId, nat>, id: UnitId)
    requires t.Valid() && id in order
  {
    order[id] >= 1 && Pow2(order[id] - 1) <= |Headwaters(t, id)|
  }

  lemma {:induction false} OrderNeedsHeadwatersBelow(t: RankedTree, order: map<UnitId, nat>, bound: nat, id: UnitId)
    requires t.Valid() && IsStrahler(t, order) && id in t.parent
    requires forall u :: u in t.rank ==> t.rank[u] <= bound
    ensures Supplied(t, order, id)
    decreases bound - t.rank[id]
  {
    if t.Kids(id) == {} {
      assert id in Headwaters(t, id);
    } else {
      forall k | k in t.Kids(id) ensures Supplied(t, order, k) {
        OrderNeedsHeadwatersBelow(t, order, bound, k);
      }
      Confluence(t, order, t.Kids(id), id);
    }
  }

  lemma Confluence(t: RankedTree, order: map<UnitId, nat>, kids: set<UnitId>, id: UnitId)
    requires t.Valid() && id in order && kids == t.Kids(id) != {} && StrahlerRule(kids, order, order[id])
    requires forall k :: k in kids ==> Supplied(t, order, k)
    ensures Supplied(t, order, id)
  {
    var m: nat :| LargestOf(kids, order, m) && order[id] == if Twice(kids, order, m) then m + 1 else m;
    if Twice(kids, order, m) {
      var a, b :| a in kids && b in kids && a != b && order[a] == m && order[b] == m;
      TributaryHeadwaters(t, a, b, id);
      SharedOrder(t, order, a, b, id);
    } else {
      var a :| a in kids && order[a] == m;
      TributaryHeadwaters(t, a, a, id);
    }
  }

  /** Two tributaries of the same order bring twice the headwaters of one. */
  lemma SharedOrder(t: RankedTree, order: map<UnitId, nat>, a: UnitId, b: UnitId, id: UnitId)
    requires t.Valid() && a in order && b in order && id in order && order[id] == order[a] + 1 == order[b] + 1
    requires Supplied(t, order, a) && Supplied(t, order, b)
    requires |Headwaters(t, a)| + |Headwaters(t, b)| <= |Headwaters(t, id)|
    ensures Supplied(t, order, id)
  {
    assert Pow2(order[a]) == 2 * Pow2(order[a] - 1);
  }

  /** A unit of order `k` has at least `2^(k-1)` headwaters at or upstream of it. */
  lemma OrderNeedsHeadwaters(t: RankedTree, order: map<UnitId, nat>, id: UnitId)
    requires t.Valid() && IsStrahler(t, order) && id in t.parent
    ensures order[id] >= 1 && Pow2(order[id] - 1) <= |Headwaters(t, id)|
  {
    var bound := RankBound(t.rank.Keys, t.rank);
    OrderNeedsHeadwatersBelow(t, order, bound, id);
  }

  /** No order exceeds one plus the binary logarithm of the number of headwaters in the whole tree. */
  lemma OrderBoundedByHeadwaters(t: RankedTree, order: map<UnitId, nat>, id: UnitId)
    requires t.Valid() && IsStrahler(t, order) && id in t.parent
    ensures order[id] >= 1 && Pow2(order[id] - 1) <= |set x | x in t.parent && t.Kids(x) == {}|
  {
    OrderNeedsHeadwaters(t, order, id);
    SubsetSize(Headwaters(t, id), set x | x in t.parent && t.Kids(x) == {});
  }
}
