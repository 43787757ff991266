/**
  The drainage graph and its breadth-first upstream traversal.
 */
module Upstream {
  import opened Prelude

  type UnitId = int
  type Level = int

  datatype AdjacencyRow = AdjacencyRow(id: UnitId, level: Level, upstreamIds: seq<UnitId>)

  /** Rows and the lookup by identifier; a lookup gives some row with that identifier. */
  datatype Graph = Graph(rows: seq<AdjacencyRow>, index: map<UnitId, nat>) {
    ghost predicate Valid() {
      && (forall id :: id in index ==> index[id] < |rows| && rows[index[id]].id == id)
      && (forall i :: 0 <= i < |rows| ==> rows[i].id in index)
    }

    predicate Has(id: UnitId) {
      id in index
    }

    function Get(id: UnitId): (row: AdjacencyRow)
      requires Valid() && Has(id)
      ensures row.id == id && row in rows
    {
      rows[index[id]]
    }
  }

  // ---- Upstream closure ---------------------------------------------------------------

  /** A set of units that contains, with every unit of the graph, its upstream neighbours. */
  ghost predicate ClosedUpstream(g: Graph, s: set<UnitId>)
    requires g.Valid()
  {
    forall id, up :: id in s && g.Has(id) && up in g.Get(id).upstreamIds ==> up in s
  }

  /** `id` is the terminal or drains to it: it lies in every closed set around the terminal. */
  ghost predicate DrainsTo(g: Graph, terminal: UnitId, id: UnitId)
    requires g.Valid()
  {
    forall s: set<UnitId> :: terminal in s && ClosedUpstream(g, s) ==> id in s
  }

  datatype TraversalError = TerminalNotFound | DanglingUpstreamRef(source: UnitId, target: UnitId)

  /** Units in traversal order, terminal first, and the unit each was reached from. */
  datatype UpstreamUnits = UpstreamUnits(units: seq<UnitId>, downstream: map<UnitId, UnitId>)

  predicate Distinct<T(==)>(s: seq<T>) {
    forall i, j :: 0 <= i < j < |s| ==> s[i] != s[j]
  }

  /** The unit that `id` was reached from has it among its upstream neighbours. */
  ghost predicate Hangs(g: Graph, downstream: map<UnitId, UnitId>, id: UnitId)
    requires g.Valid() && id in downstream
  {
    g.Has(downstream[id]) && id in g.Get(downstream[id]).upstreamIds
  }

  /** Every listed unit but the terminal hangs, by an edge of the graph, from a unit listed before it. */
  ghost predicate IsTree(g: Graph, terminal: UnitId, units: seq<UnitId>, downstream: map<UnitId, UnitId>)
    requires g.Valid()
  {
    && Distinct(units)
    && (forall i :: 0 <= i < |units| ==> g.Has(units[i]))
    && (forall i :: 0 <= i < |units| ==> (units[i] == terminal <==> units[i] !in downstream))
    && (forall i :: 0 <= i < |units| && units[i] in downstream ==>
          downstream[units[i]] in units[..i] && Hangs(g, downstream, units[i]))
  }

  /** Queued units hang from listed ones. */
  ghost predicate QueueHangs(g: Graph, terminal: UnitId, units: seq<UnitId>, queue: seq<UnitId>,
                             downstream: map<UnitId, UnitId>)
    requires g.Valid()
  {
    forall i :: 0 <= i < |queue| ==>
      && g.Has(queue[i]) && (queue[i] == terminal <==> queue[i] !in downstream)
      && (queue[i] in downstream ==> downstream[queue[i]] in units && Hangs(g, downstream, queue[i]))
  }

  /** Listed and queued units are the visited ones, without repetition, the terminal first. */
  ghost predicate VisitedOnce(terminal: UnitId, visited: set<UnitId>, all: seq<UnitId>,
                              downstream: map<UnitId, UnitId>) {
    && all != [] && all[0] == terminal && Distinct(all)
    && (forall id :: id in visited <==> id in all)
    && downstream.Keys <= visited
  }

  /** State of the traversal between two dequeues. */
  ghost predicate Traversing(g: Graph, terminal: UnitId, visited: set<UnitId>, units: seq<UnitId>, queue: seq<UnitId>,
                             downstream: map<UnitId, UnitId>)
    requires g.Valid()
  {
    && VisitedOnce(terminal, visited, units + queue, downstream)
    && IsTree(g, terminal, units, downstream)
    && QueueHangs(g, terminal, units, queue, downstream)
    && (forall id :: id in visited ==> DrainsTo(g, terminal, id))
  }

  /** The upstream neighbours of the listed units are visited. */
  ghost predicate Expanded(g: Graph, units: seq<UnitId>, visited: set<UnitId>)
    requires g.Valid()
  {
    forall u, up :: u in units && g.Has(u) && up in g.Get(u).upstreamIds ==> up in visited
  }

  /** What the traversal still has to look at, and how it got there. */
  datatype Frontier = Frontier(visited: set<UnitId>, queue: seq<UnitId>, downstream: map<UnitId, UnitId>)

  ghost predicate Exploring(g: Graph, terminal: UnitId, units: seq<UnitId>, f: Frontier)
    requires g.Valid()
  {
    Traversing(g, terminal, f.visited, units, f.queue, f.downstream)
  }

  /** Look at one upstream neighbour of a listed unit. */
  method VisitEdge(g: Graph, terminal: UnitId, units: seq<UnitId>, current: UnitId, up: UnitId, f: Frontier)
    returns (r: Result<Frontier, TraversalError>)
    requires g.Valid() && Exploring(g, terminal, units, f)
    requires current in units && g.Has(current) && up in g.Get(current).upstreamIds
    ensures r.Success? ==> Exploring(g, terminal, units, r.value) && f.visited + {up} == r.value.visited
    ensures r.Failure? ==> r.error == DanglingUpstreamRef(current, up) && !g.Has(up)
  {
    if up in f.visited {
      assert f.visited + {up} == f.visited;
      return Success(f);
    }
    if !g.Has(up) {
      return Failure(DanglingUpstreamRef(current, up));
    }
    Visit(g, terminal, f.visited, units, f.queue, f.downstream, current, up);
    return Success(Frontier(f.visited + {up}, f.queue + [up], f.downstream[up := current]));
  }

  /** Visit the unvisited upstream neighbours of the unit just listed. */
  method Expand(g: Graph, terminal: UnitId, units: seq<UnitId>, current: UnitId, f: Frontier)
    returns (r: Result<Frontier, TraversalError>)
    requires g.Valid() && Exploring(g, terminal, units, f) && current in units && g.Has(current)
    ensures r.Success? ==> Exploring(g, terminal, units, r.value) && f.visited <= r.value.visited
    ensures r.Success? ==> forall up :: up in g.Get(current).upstreamIds ==> up in r.value.visited
    ensures r.Failure? ==> r.error.DanglingUpstreamRef? && r.error.source == current
                           && r.error.target in g.Get(current).upstreamIds && !g.Has(r.error.target)
  {
    var ups := g.Get(current).upstreamIds;
    var frontier := f;
    for k := 0 to |ups|
      invariant Exploring(g, terminal, units, frontier) && f.visited <= frontier.visited
      invariant forall j :: 0 <= j < k ==> ups[j] in frontier.visited
    {
      frontier :- VisitEdge(g, terminal, units, current, ups[k], frontier);
    }
    return Success(frontier);
  }

  lemma ListedUnit(g: Graph, terminal: UnitId, visited: set<UnitId>, units: seq<UnitId>, queue: seq<UnitId>,
                   downstream: map<UnitId, UnitId>, u: UnitId)
    requires g.Valid() && Traversing(g, terminal, visited, units, queue, downstream) && u in units
    ensures g.Has(u) && DrainsTo(g, terminal, u)
  {
    assert u in units + queue;
  }

  lemma ExpandedNext(g: Graph, units: seq<UnitId>, visited: set<UnitId>, visited': set<UnitId>)
    requires g.Valid() && |units| > 0 && visited <= visited' && Expanded(g, units[..|units| - 1], visited)
    requires g.Has(units[|units| - 1]) && forall up :: up in g.Get(units[|units| - 1]).upstreamIds ==> up in visited'
    ensures Expanded(g, units, visited')
  {
    forall u | u in units ensures u in units[..|units| - 1] || u == units[|units| - 1] {
    }
  }

  /** One more unit enters the queue. */
  lemma Visit(g: Graph, terminal: UnitId, visited: set<UnitId>, units: seq<UnitId>, queue: seq<UnitId>,
              downstream: map<UnitId, UnitId>, current: UnitId, up: UnitId)
    requires g.Valid() && Traversing(g, terminal, visited, units, queue, downstream)
    requires current in units && g.Has(current) && up in g.Get(current).upstreamIds && g.Has(up) && up !in visited
    ensures Traversing(g, terminal, visited + {up}, units, queue + [up], downstream[up := current])
  {
    assert units + (queue + [up]) == (units + queue) + [up];
    assert up != terminal;
    forall i | 0 <= i < |units| ensures units[i] != up {
      assert units[i] in units + queue;
    }
    assert current in visited;
  }

  /** A unit not yet listed that hangs from a listed one may be listed next. */
  lemma ListNext(g: Graph, terminal: UnitId, units: seq<UnitId>, downstream: map<UnitId, UnitId>, next: UnitId)
    requires g.Valid() && IsTree(g, terminal, units, downstream) && next !in units
    requires QueueHangs(g, terminal, units, [next], downstream)
    ensures IsTree(g, terminal, units + [next], downstream)
  {
    var longer := units + [next];
    assert [next][0] == next;
    forall i | 0 <= i < |longer|
      ensures g.Has(longer[i]) && (longer[i] == terminal <==> longer[i] !in downstream)
      ensures longer[i] in downstream ==> downstream[longer[i]] in longer[..i] && Hangs(g, downstream, longer[i])
    {
      if i < |units| {
        assert longer[i] == units[i] && longer[..i] == units[..i];
      } else {
        assert longer[..i] == units;
      }
    }
  }

  lemma MoveFront(terminal: UnitId, visited: set<UnitId>, units: seq<UnitId>, queue: seq<UnitId>,
                  downstream: map<UnitId, UnitId>)
    requires queue != [] && VisitedOnce(terminal, visited, units + queue, downstream)
    ensures VisitedOnce(terminal, visited, units + [queue[0]] + queue[1..], downstream)
    ensures queue[0] !in units
  {
    assert units + [queue[0]] + queue[1..] == units + queue;
    forall i | 0 <= i < |units| ensures units[i] != queue[0] {
      assert (units + queue)[i] == units[i] && (units + queue)[|units|] == queue[0];
    }
  }

  /** The front of the queue is listed. */
  lemma Dequeue(g: Graph, terminal: UnitId, visited: set<UnitId>, units: seq<UnitId>, queue: seq<UnitId>,
                downstream: map<UnitId, UnitId>)
    requires g.Valid() && queue != [] && Traversing(g, terminal, visited, units, queue, downstream)
    ensures Traversing(g, terminal, visited, units + [queue[0]], queue[1..], downstream)
    ensures queue[0] !in units
  {
    MoveFront(terminal, visited, units, queue, downstream);
    FirstAndRestHang(g, terminal, units, queue, downstream);
    ListNext(g, terminal, units, downstream, queue[0]);
  }

  lemma FirstAndRestHang(g: Graph, terminal: UnitId, units: seq<UnitId>, queue: seq<UnitId>,
                         downstream: map<UnitId, UnitId>)
    requires g.Valid() && queue != [] && QueueHangs(g, terminal, units, queue, downstream)
    ensures QueueHangs(g, terminal, units, [queue[0]], downstream)
    ensures QueueHangs(g, terminal, units + [queue[0]], queue[1..], downstream)
  {
    forall i | 0 <= i < |queue[1..]| ensures queue[1..][i] == queue[i + 1] {
    }
  }

  /**
    `collect_upstream`: exactly the units that drain to the terminal, as a tree, each after the
    one it drains through.
   */
  method CollectUpstream(g: Graph, terminal: UnitId) returns (r: Result<UpstreamUnits, TraversalError>)
    requires g.Valid()
    ensures r == Failure(TerminalNotFound) <==> !g.Has(terminal)
    ensures r.Failure? && r.error.DanglingUpstreamRef? ==>
              && DrainsTo(g, terminal, r.error.source) && g.Has(r.error.source)
              && r.error.target in g.Get(r.error.source).upstreamIds && !g.Has(r.error.target)
    ensures r.Success? ==>
              && |r.value.units| > 0 && r.value.units[0] == terminal
              && IsTree(g, terminal, r.value.units, r.value.downstream)
              && (forall id :: id in r.value.downstream ==> id in r.value.units)
              && (forall id :: id in r.value.units <==> DrainsTo(g, terminal, id))
  {
    if !g.Has(terminal) {
      return Failure(TerminalNotFound);
    }
    var visited: set<UnitId> := {terminal};
    var units: seq<UnitId> := [];
    var downstream: map<UnitId, UnitId> := map[];
    var queue := [terminal];
    ghost var left := g.index.Keys;
    while queue != []
      invariant Traversing(g, terminal, visited, units, queue, downstream)
      invariant Expanded(g, units, visited)
      invariant forall id :: id in left <==> g.Has(id) && id !in units
      decreases left
    {
      Dequeue(g, terminal, visited, units, queue, downstream);
      var current := queue[0];
      queue := queue[1..];
      ghost var listed, seen := units, visited;
      units := units + [current];
      assert units[..|units| - 1] == listed;
      left := left - {current};
      ListedUnit(g, terminal, visited, units, queue, downstream, current);
      var expanded :- Expand(g, terminal, units, current, Frontier(visited, queue, downstream));
      visited, queue, downstream := expanded.visited, expanded.queue, expanded.downstream;
      ExpandedNext(g, units, seen, visited);
    }
    Complete(g, terminal, visited, units, downstream);
    return Success(UpstreamUnits(units, downstream));
  }

  /** With an empty queue the listed units are the whole closure. */
  lemma Complete(g: Graph, terminal: UnitId, visited: set<UnitId>, units: seq<UnitId>, downstream: map<UnitId, UnitId>)
    requires g.Valid() && Traversing(g, terminal, visited, units, [], downstream) && Expanded(g, units, visited)
    ensures forall id :: id in units <==> DrainsTo(g, terminal, id)
    ensures |units| > 0 && units[0] == terminal
  {
    assert units + [] == units;
    assert ClosedUpstream(g, visited);
  }
}
