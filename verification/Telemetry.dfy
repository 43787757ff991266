/**
  Object-store counters shared by any number of recorders, and snapshots taken while they
  record.  Steps are sequentially consistent; the counters are 64-bit and wrap.
 */
module Telemetry {
  import opened Prelude

  datatype Kind = Requests | BytesIn | BytesOut

  datatype Counters = Counters(requests: nat, bytesIn: nat, bytesOut: nat) {
    function Of(k: Kind): nat {
      match k
      case Requests => requests
      case BytesIn => bytesIn
      case BytesOut => bytesOut
    }

    function Plus(k: Kind, n: nat): (c: Counters)
      ensures forall j :: c.Of(j) == Of(j) + if j == k then n else 0
    {
      match k
      case Requests => this.(requests := requests + n)
      case BytesIn => this.(bytesIn := bytesIn + n)
      case BytesOut => this.(bytesOut := bytesOut + n)
    }

    /** What the atomic counters show. */
    function Shown(): (c: Counters)
      ensures forall j :: c.Of(j) == Wrapped(Of(j))
    {
      Counters(Wrapped(requests), Wrapped(bytesIn), Wrapped(bytesOut))
    }
  }

  const ZERO: Counters := Counters(0, 0, 0)

  datatype Entry = Entry(path: string, counts: Counters)

  /** A recorder that has added to the total and not yet to its path. */
  datatype Pending = Pending(kind: Kind, path: string, n: nat)

  ghost function SumOf(entries: seq<Entry>, k: Kind): nat {
    if entries == [] then 0 else SumOf(entries[..|entries| - 1], k) + entries[|entries| - 1].counts.Of(k)
  }

  ghost function PendingOf(pending: seq<Pending>, k: Kind): nat {
    if pending == [] then 0
    else
      PendingOf(pending[..|pending| - 1], k)
      + if pending[|pending| - 1].kind == k then pending[|pending| - 1].n else 0
  }

  /** What recorders have passed on to one path. */
  ghost function PassedOn(log: seq<Pending>, path: string, k: Kind): nat {
    if log == [] then 0
    else
      var last := log[|log| - 1];
      PassedOn(log[..|log| - 1], path, k) + if last.path == path && last.kind == k then last.n else 0
  }

  /** What one path has counted. */
  ghost function CountOf(entries: seq<Entry>, path: string, k: Kind): nat {
    if entries == [] then 0
    else
      var last := entries[|entries| - 1];
      CountOf(entries[..|entries| - 1], path, k) + if last.path == path then last.counts.Of(k) else 0
  }

  /** A path counts what its one entry shows, and nothing when it has none. */
  lemma {:induction false} CountIsEntry(entries: seq<Entry>, i: nat, path: string, k: Kind)
    requires DistinctPaths(entries)
    ensures (forall j :: 0 <= j < |entries| ==> entries[j].path != path) ==> CountOf(entries, path, k) == 0
    ensures i < |entries| && entries[i].path == path ==> CountOf(entries, path, k) == entries[i].counts.Of(k)
  {
    if entries != [] {
      var last := |entries| - 1;
      CountIsEntry(entries[..last], i, path, k);
    }
  }

  lemma PassedOnAppend(log: seq<Pending>, p: Pending, path: string, k: Kind)
    ensures PassedOn(log + [p], path, k) == PassedOn(log, path, k) + if p.path == path && p.kind == k then p.n else 0
  {
    assert (log + [p])[..|log|] == log;
  }

  lemma CountOfNewEntry(entries: seq<Entry>, made: string, path: string, k: Kind)
    ensures CountOf(entries + [Entry(made, ZERO)], path, k) == CountOf(entries, path, k)
  {
    assert (entries + [Entry(made, ZERO)])[..|entries|] == entries;
  }

  lemma {:induction false} CountUpdate(entries: seq<Entry>, i: nat, kind: Kind, n: nat, path: string, k: Kind)
    requires i < |entries|
    ensures CountOf(entries[i := Entry(entries[i].path, entries[i].counts.Plus(kind, n))], path, k) ==
        CountOf(entries, path, k) + if entries[i].path == path && k == kind then n else 0
  {
    var last := |entries| - 1;
    var updated := entries[i := Entry(entries[i].path, entries[i].counts.Plus(kind, n))];
    if i < last {
      CountUpdate(entries[..last], i, kind, n, path, k);
      assert updated[..last] == entries[..last][i := updated[i]];
    } else {
      assert updated[..last] == entries[..last];
    }
  }

  ghost predicate DistinctPaths(entries: seq<Entry>) {
    forall i, j :: 0 <= i < j < |entries| ==> entries[i].path != entries[j].path
  }

  predicate AtMost(a: Counters, b: Counters) {
    a.requests <= b.requests && a.bytesIn <= b.bytesIn && a.bytesOut <= b.bytesOut
  }

  /** Entries stay where they are, and their counts never fall. */
  ghost predicate Grows(a: seq<Entry>, b: seq<Entry>) {
    |a| <= |b| && forall i :: 0 <= i < |a| ==> a[i].path == b[i].path && AtMost(a[i].counts, b[i].counts)
  }

  lemma {:induction false} SumGrows(a: seq<Entry>, b: seq<Entry>, k: Kind)
    requires Grows(a, b)
    ensures SumOf(a, k) <= SumOf(b, k)
    decreases |b|
  {
    if b != [] {
      var last := |b| - 1;
      if |a| == |b| {
        SumGrows(a[..last], b[..last], k);
      } else {
        SumGrows(a, b[..last], k);
      }
    }
  }

  lemma {:induction false} SumUpdate(entries: seq<Entry>, i: nat, kind: Kind, n: nat, k: Kind)
    requires i < |entries|
    ensures SumOf(entries[i := Entry(entries[i].path, entries[i].counts.Plus(kind, n))], k) ==
        SumOf(entries, k) + if k == kind then n else 0
  {
    var last := |entries| - 1;
    var updated := entries[i := Entry(entries[i].path, entries[i].counts.Plus(kind, n))];
    if i < last {
      SumUpdate(entries[..last], i, kind, n, k);
      assert updated[..last] == entries[..last][i := updated[i]];
    } else {
      assert updated[..last] == entries[..last];
    }
  }

  lemma SumAppend(entries: seq<Entry>, e: Entry, k: Kind)
    ensures SumOf(entries + [e], k) == SumOf(entries, k) + e.counts.Of(k)
  {
    assert (entries + [e])[..|entries|] == entries;
  }

  lemma PendingAppend(pending: seq<Pending>, p: Pending, k: Kind)
    ensures PendingOf(pending + [p], k) == PendingOf(pending, k) + if p.kind == k then p.n else 0
  {
    assert (pending + [p])[..|pending|] == pending;
  }

  lemma {:induction false} PendingRemove(pending: seq<Pending>, i: nat, k: Kind)
    requires i < |pending|
    ensures PendingOf(pending, k) ==
        PendingOf(pending[..i] + pending[i + 1..], k) + if pending[i].kind == k then pending[i].n else 0
  {
    var last := |pending| - 1;
    if i == last {
      assert pending[..i] + pending[i + 1..] == pending[..last];
    } else {
      PendingRemove(pending[..last], i, k);
      assert (pending[..i] + pending[i + 1..])[..last - 1] == pending[..last][..i] + pending[..last][i + 1..];
    }
  }

  ghost function ShownEntries(entries: seq<Entry>): (r: seq<Entry>)
    ensures |r| == |entries|
  {
    seq(|entries|, i requires 0 <= i < |entries| => Entry(entries[i].path, entries[i].counts.Shown()))
  }

  lemma WrapSum(a: nat, b: nat)
    ensures Wrapped(Wrapped(a) + Wrapped(b)) == Wrapped(a + b)
  {
    var m := U64_MAX + 1;
    var q := a / m + b / m + (Wrapped(a) + Wrapped(b)) / m;
    assert a + b == q * m + (Wrapped(a) + Wrapped(b)) % m;
    DivModUnique(a + b, q, (Wrapped(a) + Wrapped(b)) % m, m);
  }

  lemma WrapTwice(a: nat)
    ensures Wrapped(Wrapped(a)) == Wrapped(a)
  {
    SmallWrap(Wrapped(a));
  }

  /** The shown counters add up to the true sum, modulo the counter width. */
  lemma {:induction false} ShownSum(entries: seq<Entry>, k: Kind)
    ensures Wrapped(SumOf(ShownEntries(entries), k)) == Wrapped(SumOf(entries, k))
  {
    if entries != [] {
      var last := |entries| - 1;
      var front := entries[..last];
      ShownSum(front, k);
      assert ShownEntries(entries)[..last] == ShownEntries(front);
      var (x, y, shown) := (SumOf(front, k), entries[last].counts.Of(k), SumOf(ShownEntries(front), k));
      WrapSum(x, y);
      WrapSum(shown, Wrapped(y));
      WrapTwice(y);
    }
  }

  /** A true sum below the counter width is shown entry by entry. */
  lemma {:induction false} SmallSumShown(entries: seq<Entry>, k: Kind)
    requires SumOf(entries, k) <= U64_MAX
    ensures SumOf(ShownEntries(entries), k) == SumOf(entries, k)
  {
    if entries != [] {
      var last := |entries| - 1;
      SmallSumShown(entries[..last], k);
      assert ShownEntries(entries)[..last] == ShownEntries(entries[..last]);
      SmallWrap(entries[last].counts.Of(k));
    }
  }

  /** The shown total is the sum of the shown counters exactly when that sum fits the counter. */
  lemma ShownTotalIsSum(entries: seq<Entry>, k: Kind)
    ensures Wrapped(SumOf(entries, k)) == SumOf(ShownEntries(entries), k)
            <==> SumOf(ShownEntries(entries), k) <= U64_MAX
  {
    ShownSum(entries, k);
    if SumOf(ShownEntries(entries), k) <= U64_MAX {
      SmallWrap(SumOf(ShownEntries(entries), k));
    }
  }

  /** Two paths of 2^63 bytes each: the shown counters add up to 2^64, the shown total is zero. */
  lemma HalfRangePathsDisagree(k: Kind)
    ensures var half := Counters(0x8000_0000_0000_0000, 0x8000_0000_0000_0000, 0x8000_0000_0000_0000);
            var entries := [Entry("a", half), Entry("b", half)];
            && DistinctPaths(entries)
            && SumOf(ShownEntries(entries), k) == U64_MAX + 1 && Wrapped(SumOf(entries, k)) == 0
  {
    var half := Counters(0x8000_0000_0000_0000, 0x8000_0000_0000_0000, 0x8000_0000_0000_0000);
    var a, b := Entry("a", half), Entry("b", half);
    SumAppend([], a, k);
    SumAppend([a], b, k);
    assert [] + [a] == [a] && [a] + [b] == [a, b];
    SmallWrap(0x8000_0000_0000_0000);
    assert ShownEntries([a, b]) == [a, b];
  }

  lemma AtMostOf(a: Counters, b: Counters, k: Kind)
    requires AtMost(a, b)
    ensures a.Of(k) <= b.Of(k)
  {
  }

  /** A total that has not wrapped shows at least what the paths showed before it was loaded. */
  lemma TotalCoversPaths(seen: seq<Entry>, present: seq<Entry>, loaded: nat, k: Kind)
    requires Grows(seen, present) && SumOf(present, k) <= loaded <= U64_MAX
    ensures SumOf(ShownEntries(seen), k) <= Wrapped(loaded)
  {
    SumGrows(seen, present, k);
    SmallSumShown(seen, k);
    SmallWrap(loaded);
  }

  /** A total that started as the sum of the paths and did not change is the sum of what was loaded. */
  lemma QuietTotal(counted: seq<Entry>, seen: seq<Entry>, present: seq<Entry>, loaded: nat, k: Kind)
    requires Grows(counted, seen) && Grows(seen, present) && SumOf(present, k) <= loaded <= SumOf(counted, k)
    ensures loaded == SumOf(seen, k)
  {
    SumGrows(counted, seen, k);
    SumGrows(seen, present, k);
  }

  datatype Snapshot = Snapshot(total: Counters, perPath: seq<Entry>)

  /** What another recorder does in one step. */
  datatype Foreign = Begin(p: Pending) | MakeEntry(path: string) | Finish(i: nat)

  class HttpStats {
    var totals: Counters
    var perPath: seq<Entry>
    /** Other recorders in the middle of a call, and the recorder under consideration. */
    var midCall: seq<Pending>
    ghost var mine: seq<Pending>
    /** What other recorders added to the totals, and what they passed on to their paths, so far. */
    ghost var begun: seq<Pending>
    ghost var passed: seq<Pending>

    constructor ()
      ensures Valid() && Quiet() && begun == [] && passed == []
    {
      totals, perPath, midCall, mine, begun, passed := ZERO, [], [], [], [], [];
    }

    /** What a total counts apart from what other recorders added to it. */
    ghost function OwnTotal(k: Kind): int
      reads this`totals, this`begun
    {
      totals.Of(k) - PendingOf(begun, k)
    }

    /** What a path counts apart from what other recorders passed on to it. */
    ghost function OwnCount(path: string, k: Kind): int
      reads this`perPath, this`passed
    {
      CountOf(perPath, path, k) - PassedOn(passed, path, k)
    }

    /** A total counts what its paths count, and what recorders in mid-call have yet to pass on. */
    ghost predicate Valid()
      reads this
    {
      && DistinctPaths(perPath)
      && forall k :: totals.Of(k) == SumOf(perPath, k) + PendingOf(midCall, k) + PendingOf(mine, k)
    }

    ghost predicate Quiet()
      reads this
    {
      midCall == [] && mine == []
    }

    /** The entry of the path, made if there is none. */
    method EntryOf(path: string) returns (i: nat)
      requires Valid()
      modifies this`perPath
      ensures Valid() && Grows(old(perPath), perPath)
      ensures i < |perPath| && perPath[i].path == path
      ensures forall k :: SumOf(perPath, k) == SumOf(old(perPath), k)
      ensures forall q, k :: CountOf(perPath, q, k) == CountOf(old(perPath), q, k)
    {
      i := 0;
      while i < |perPath|
        invariant i <= |perPath|
        invariant forall j :: 0 <= j < i ==> perPath[j].path != path
      {
        if perPath[i].path == path {
          return;
        }
        i := i + 1;
      }
      ghost var before := perPath;
      perPath := perPath + [Entry(path, ZERO)];
      forall k ensures SumOf(perPath, k) == SumOf(before, k) {
        SumAppend(before, Entry(path, ZERO), k);
      }
      forall q, k ensures CountOf(perPath, q, k) == CountOf(before, q, k) {
        CountOfNewEntry(before, path, q, k);
      }
    }

    method AddToPath(i: nat, kind: Kind, n: nat)
      requires i < |perPath| && DistinctPaths(perPath)
      modifies this`perPath
      ensures perPath == old(perPath)[i := Entry(old(perPath)[i].path, old(perPath)[i].counts.Plus(kind, n))]
      ensures DistinctPaths(perPath) && Grows(old(perPath), perPath)
      ensures forall k :: SumOf(perPath, k) == SumOf(old(perPath), k) + if k == kind then n else 0
      ensures forall q, k :: CountOf(perPath, q, k) ==
                CountOf(old(perPath), q, k) + if q == old(perPath)[i].path && k == kind then n else 0
    {
      forall k {
        SumUpdate(perPath, i, kind, n, k);
      }
      forall q, k {
        CountUpdate(perPath, i, kind, n, q, k);
      }
      perPath := perPath[i := Entry(perPath[i].path, perPath[i].counts.Plus(kind, n))];
    }

    /** Another recorder adds to the total. */
    method BeginOther(p: Pending)
      requires Valid()
      modifies this`totals, this`midCall, this`begun
      ensures Valid() && AtMost(old(totals), totals)
      ensures forall k :: OwnTotal(k) == old(OwnTotal(k))
    {
      totals := totals.Plus(p.kind, p.n);
      forall k {
        PendingAppend(midCall, p, k);
      }
      forall k {
        PendingAppend(begun, p, k);
      }
      midCall := midCall + [p];
      begun := begun + [p];
    }

    /** Another recorder adds to its path and is done. */
    method FinishOther(i: nat)
      requires Valid() && i < |midCall|
      modifies this`perPath, this`midCall, this`passed
      ensures Valid() && Grows(old(perPath), perPath)
      ensures forall q, k :: OwnCount(q, k) == old(OwnCount(q, k))
    {
      var p := midCall[i];
      var at := EntryOf(p.path);
      forall k {
        PendingRemove(midCall, i, k);
      }
      AddToPath(at, p.kind, p.n);
      forall q, k {
        PassedOnAppend(passed, p, q, k);
      }
      passed := passed + [p];
      midCall := midCall[..i] + midCall[i + 1..];
    }

    /** Whatever the other recorders do between two steps. */
    method Others()
      requires Valid()
      modifies this`totals, this`perPath, this`midCall, this`begun, this`passed
      ensures Valid() && Grows(old(perPath), perPath) && AtMost(old(totals), totals)
      ensures forall k :: OwnTotal(k) == old(OwnTotal(k))
      ensures forall q, k :: OwnCount(q, k) == old(OwnCount(q, k))
    {
      var actions: seq<Foreign> := *;
      for j := 0 to |actions|
        invariant Valid() && Grows(old(perPath), perPath) && AtMost(old(totals), totals)
        invariant forall k :: OwnTotal(k) == old(OwnTotal(k))
        invariant forall q, k :: OwnCount(q, k) == old(OwnCount(q, k))
      {
        match actions[j]
        case Begin(p) => BeginOther(p);
        case MakeEntry(path) => var _ := EntryOf(path);
        case Finish(i) =>
          if i < |midCall| {
            FinishOther(i);
          }
      }
    }

    /** The first step of a recorder: the total. */
    method AddToTotal(kind: Kind, path: string, n: nat)
      requires Valid() && mine == []
      modifies this`totals, this`mine
      ensures Valid() && mine == [Pending(kind, path, n)] && totals == old(totals).Plus(kind, n)
    {
      forall k {
        PendingAppend([], Pending(kind, path, n), k);
      }
      totals := totals.Plus(kind, n);
      mine := [] + [Pending(kind, path, n)];
    }

    /** The last step: the path. */
    method PassOn(i: nat, kind: Kind, path: string, n: nat)
      requires Valid() && mine == [Pending(kind, path, n)] && i < |perPath| && perPath[i].path == path
      modifies this`perPath, this`mine
      ensures Valid() && mine == []
      ensures Grows(old(perPath), perPath)
      ensures forall q, k :: OwnCount(q, k) == old(OwnCount(q, k)) + if q == path && k == kind then n else 0
    {
      forall k {
        PendingAppend([], Pending(kind, path, n), k);
      }
      assert [] + [Pending(kind, path, n)] == mine;
      AddToPath(i, kind, n);
      mine := [];
    }

    /**
      `record_request`, `record_bytes_in` and `record_bytes_out`: first the total, then the path.
      Apart from what other recorders add meanwhile, the total of the kind and the count of the
      path gain exactly `n`, and nothing else gains anything.
     */
    method Record(kind: Kind, path: string, n: nat)
      requires Valid() && mine == []
      modifies this
      ensures Valid() && mine == [] && Grows(old(perPath), perPath) && AtMost(old(totals).Plus(kind, n), totals)
      ensures forall k :: OwnTotal(k) == old(OwnTotal(k)) + if k == kind then n else 0
      ensures forall q, k :: OwnCount(q, k) == old(OwnCount(q, k)) + if q == path && k == kind then n else 0
    {
      AddToTotal(kind, path, n);
      assert forall k :: OwnTotal(k) == old(OwnTotal(k)) + if k == kind then n else 0;
      Others();
      ghost var before := perPath;
      var i := EntryOf(path);
      assert forall q, k :: CountOf(perPath, q, k) == CountOf(before, q, k);
      assert forall q, k :: OwnCount(q, k) == old(OwnCount(q, k));
      Others();
      PassOn(i, kind, path, n);
    }

    /** Load the counters of the entry at position `i`, one at a time. */
    method LoadEntry(i: nat) returns (shown: Entry, ghost counts: Counters)
      requires Valid() && i < |perPath|
      modifies this`totals, this`perPath, this`midCall, this`begun, this`passed
      ensures Valid() && Grows(old(perPath), perPath) && AtMost(old(totals), totals)
      ensures shown == Entry(perPath[i].path, counts.Shown())
      ensures AtMost(old(perPath)[i].counts, counts) && AtMost(counts, perPath[i].counts)
    {
      var path := perPath[i].path;
      Others();
      var requests := perPath[i].counts.requests;
      Others();
      var bytesIn := perPath[i].counts.bytesIn;
      Others();
      var bytesOut := perPath[i].counts.bytesOut;
      counts := Counters(requests, bytesIn, bytesOut);
      shown := Entry(path, Counters(Wrapped(requests), Wrapped(bytesIn), Wrapped(bytesOut)));
    }

    /** Visit the entries; those made after the start of the visit may be missed. */
    method LoadEntries() returns (shown: seq<Entry>, ghost seen: seq<Entry>)
      requires Valid()
      modifies this`totals, this`perPath, this`midCall, this`begun, this`passed
      ensures Valid() && Grows(old(perPath), perPath) && AtMost(old(totals), totals)
      ensures shown == ShownEntries(seen) && DistinctPaths(shown)
      ensures Grows(old(perPath), seen) && Grows(seen, perPath)
    {
      shown, seen := [], [];
      var late: int := *;
      var present := |perPath|;
      for i := 0 to if late > 0 then present + late else present
        invariant Valid() && Grows(old(perPath), perPath) && AtMost(old(totals), totals)
        invariant shown == ShownEntries(seen) && Grows(seen, perPath)
        invariant |seen| >= Min(i, present) && Grows(old(perPath)[..Min(|seen|, present)], seen)
      {
        if |shown| < |perPath| {
          ghost var at := |shown|;
          var entry, counts := LoadEntry(|shown|);
          shown, seen := shown + [entry], seen + [Entry(entry.path, counts)];
          assert shown == ShownEntries(seen);
        }
      }
      assert old(perPath)[..present] == old(perPath);
    }

    /** Load the totals, one at a time. */
    method LoadTotals() returns (shown: Counters, ghost counts: Counters)
      requires Valid()
      modifies this`totals, this`perPath, this`midCall, this`begun, this`passed
      ensures Valid() && shown == counts.Shown() && Grows(old(perPath), perPath)
      ensures AtMost(old(totals), counts) && AtMost(counts, totals)
    {
      Others();
      var requests := totals.requests;
      Others();
      var bytesIn := totals.bytesIn;
      Others();
      var bytesOut := totals.bytesOut;
      counts := Counters(requests, bytesIn, bytesOut);
      shown := Counters(Wrapped(requests), Wrapped(bytesIn), Wrapped(bytesOut));
    }

    /**
      `snapshot`: first the paths, then the totals.  Each total is at least the sum of its
      paths while it has not wrapped; with nobody in mid-call and nothing counted meanwhile it
      is their sum, exactly when that sum fits the counter.
     */
    method Snap() returns (r: Snapshot, ghost seen: seq<Entry>, ghost loaded: Counters)
      requires Valid()
      modifies this`totals, this`perPath, this`midCall, this`begun, this`passed
      ensures Valid() && DistinctPaths(r.perPath)
      ensures r == Snapshot(loaded.Shown(), ShownEntries(seen))
      ensures Grows(old(perPath), seen) && Grows(seen, perPath) && AtMost(old(totals), loaded) && AtMost(loaded, totals)
      ensures forall k :: totals.Of(k) <= U64_MAX ==> SumOf(r.perPath, k) <= r.total.Of(k)
      ensures forall k :: old(Quiet()) && totals.Of(k) == old(totals.Of(k)) ==>
                (r.total.Of(k) == SumOf(r.perPath, k) <==> SumOf(r.perPath, k) <= U64_MAX)
    {
      var shown;
      shown, seen := LoadEntries();
      ghost var present, bound := perPath, totals;
      var total;
      total, loaded := LoadTotals();
      r := Snapshot(total, shown);
      forall k ensures SumOf(present, k) <= loaded.Of(k) <= totals.Of(k) {
        AtMostOf(bound, loaded, k);
        AtMostOf(loaded, totals, k);
      }
      forall k | totals.Of(k) <= U64_MAX ensures SumOf(shown, k) <= total.Of(k) {
        TotalCoversPaths(seen, present, loaded.Of(k), k);
      }
      forall k | old(Quiet()) && totals.Of(k) == old(totals.Of(k))
        ensures total.Of(k) == SumOf(shown, k) <==> SumOf(shown, k) <= U64_MAX
      {
        QuietTotal(old(perPath), seen, present, loaded.Of(k), k);
        ShownTotalIsSum(seen, k);
      }
    }
  }
}
