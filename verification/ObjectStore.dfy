/**
  The remote object as the reader sees it: range reads that may fail or come back short.

  `GetRange` demands that the range lies inside the object, so the verifier checks at every
  call that no request ever leaves it.
 */
module ObjectStore {
  import opened Prelude

  datatype StoreError = StoreError

  class Store {
    const content: seq<u8>
    /** Bytes handed out so far. */
    ghost var returned: nat
    /** Requests that failed, came back short, or were answered in part. */
    ghost var faults: nat

    constructor (content: seq<u8>)
      ensures this.content == content && returned == 0 && faults == 0
    {
      this.content := content;
      returned, faults := 0, 0;
    }

    /** The first responses are the whole ranges. */
    ghost predicate Whole(ranges: seq<Range>, responses: seq<seq<u8>>) {
      && |responses| <= |ranges|
      && forall i :: 0 <= i < |responses| ==>
           ranges[i].start <= ranges[i].end <= |content| && responses[i] == content[ranges[i].start..ranges[i].end]
    }

    /** Either a failure, or a prefix of the requested bytes. */
    method GetRange(range: Range) returns (r: Result<seq<u8>, StoreError>)
      requires range.start <= range.end <= |content|
      modifies this
      ensures r.Success? ==> r.value <= content[range.start..range.end]
      ensures r.Success? ==> returned == old(returned) + |r.value|
      ensures faults >= old(faults) && (faults == old(faults) <==> r == Success(content[range.start..range.end]))
    {
      var fails: bool := *;
      if fails {
        faults := faults + 1;
        return Failure(StoreError);
      }
      var n :| 0 <= n <= range.end - range.start;
      returned := returned + n;
      if n < range.end - range.start {
        faults := faults + 1;
      }
      assert content[range.start..range.start + n] == content[range.start..range.end][..n];
      return Success(content[range.start..range.start + n]);
    }

    /** Either a failure, or at most one response per range, in order, each a prefix of its bytes. */
    method GetRanges(ranges: seq<Range>) returns (r: Result<seq<seq<u8>>, StoreError>)
      requires forall i :: 0 <= i < |ranges| ==> ranges[i].start <= ranges[i].end <= |content|
      modifies this
      ensures r.Success? ==> |r.value| <= |ranges|
      ensures r.Success? ==> forall i :: 0 <= i < |r.value| ==> r.value[i] <= content[ranges[i].start..ranges[i].end]
      ensures r.Success? ==> returned == old(returned) + TotalLength(r.value)
      ensures faults >= old(faults)
      ensures faults == old(faults) <==> r.Success? && |r.value| == |ranges| && Whole(ranges, r.value)
    {
      var n :| 0 <= n <= |ranges|;
      if n < |ranges| {
        faults := faults + 1;
      }
      var responses: seq<seq<u8>> := [];
      for i := 0 to n
        invariant |responses| == i
        invariant forall j :: 0 <= j < i ==> responses[j] <= content[ranges[j].start..ranges[j].end]
        invariant returned == old(returned) + TotalLength(responses)
        invariant faults >= old(faults) && (n < |ranges| ==> faults > old(faults))
        invariant n == |ranges| ==> (faults == old(faults) <==> Whole(ranges, responses))
      {
        var response := GetRange(ranges[i]);
        if response.Failure? {
          return Failure(StoreError);
        }
        TotalLengthAppend(responses, response.value);
        responses := responses + [response.value];
      }
      return Success(responses);
    }
  }

  function TotalLength(responses: seq<seq<u8>>): nat {
    if responses == [] then 0 else |responses[0]| + TotalLength(responses[1..])
  }

  lemma {:induction false} TotalLengthAppend(responses: seq<seq<u8>>, next: seq<u8>)
    ensures TotalLength(responses + [next]) == TotalLength(responses) + |next|
  {
    if responses != [] {
      assert (responses + [next])[1..] == responses[1..] + [next];
      TotalLengthAppend(responses[1..], next);
    }
  }
}
