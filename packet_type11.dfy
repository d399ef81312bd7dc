/** PacketType11: a query for the state summaries of the archive's records.
    Its request ids come from the query packet base class; processing it
    answers with one summary image per record found, then an end-of-
    transmission summary. */
module Packet11 {
  import opened Wrappers
  import opened LittleEndian
  import opened Historian

  /** No ids, or the single id -1: every record is requested. */
  predicate AllRecordsRequested(requestIDs: seq<int32>)
    ensures AllRecordsRequested(requestIDs) <==> requestIDs == [] || requestIDs == [-1]
  {
    |requestIDs| == 0 || (|requestIDs| == 1 && requestIDs[0] == -1)
  }

  /** The record ids at or above id that have a summary. */
  ghost function KeysFrom(summaries: map<int, seq<byte>>, id: int): set<int> {
    set k | k in summaries.Keys && k >= id
  }

  /** Reading past a present id leaves fewer ids to read. */
  lemma KeysFromShrinks(summaries: map<int, seq<byte>>, id: int)
    requires id in summaries
    ensures |KeysFrom(summaries, id + 1)| < |KeysFrom(summaries, id)|
  {
    assert KeysFrom(summaries, id) == KeysFrom(summaries, id + 1) + {id};
  }

  /** The summaries of records id, id + 1, ... up to the first id that has
      none. */
  function AllFrom(summaries: map<int, seq<byte>>, id: int): seq<seq<byte>>
    decreases |KeysFrom(summaries, id)|
  {
    if id !in summaries then []
    else
      KeysFromShrinks(summaries, id);
      [summaries[id]] + AllFrom(summaries, id + 1)
  }

  /** The j-th summary AllFrom yields is the one of record id + j. */
  lemma {:induction false} AllFromAt(summaries: map<int, seq<byte>>, id: int, j: int)
    requires 0 <= j < |AllFrom(summaries, id)|
    ensures SummaryOf(summaries, id + j) == Some(AllFrom(summaries, id)[j])
    decreases j
  {
    if j > 0 {
      KeysFromShrinks(summaries, id);
      var next := id + 1;
      assert AllFrom(summaries, id)[j] == AllFrom(summaries, next)[j - 1];
      AllFromAt(summaries, next, j - 1);
    }
  }

  /** AllFrom stops at an id that has no record. */
  lemma {:induction false} AllFromStops(summaries: map<int, seq<byte>>, id: int)
    ensures id + |AllFrom(summaries, id)| !in summaries
    decreases |KeysFrom(summaries, id)|
  {
    if id in summaries {
      KeysFromShrinks(summaries, id);
      var next := id + 1;
      AllFromStops(summaries, next);
    }
  }

  /** AllFrom is the run of consecutive records starting at id, in id order,
      and it ends exactly where the archive has no record. */
  lemma AllFromConsecutive(summaries: map<int, seq<byte>>, id: int)
    ensures var r := AllFrom(summaries, id);
      && (forall j :: 0 <= j < |r| ==> SummaryOf(summaries, id + j) == Some(r[j]))
      && SummaryOf(summaries, id + |r|) == None
  {
    forall j | 0 <= j < |AllFrom(summaries, id)|
      ensures SummaryOf(summaries, id + j) == Some(AllFrom(summaries, id)[j])
    {
      AllFromAt(summaries, id, j);
    }
    AllFromStops(summaries, id);
  }

  /** The summaries of the requested ids that have one, in request order;
      ids without a record are skipped. */
  function Requested(summaries: map<int, seq<byte>>, requestIDs: seq<int32>): (r: seq<seq<byte>>)
    ensures |r| <= |requestIDs|
  {
    if requestIDs == [] then []
    else
      var id := requestIDs[|requestIDs| - 1];
      Requested(summaries, requestIDs[..|requestIDs| - 1]) + (if id in summaries then [summaries[id]] else [])
  }

  /** Requests are answered independently: a request list split in two is
      answered by the two answers, one after the other. */
  lemma {:induction false} RequestedAppend(summaries: map<int, seq<byte>>, a: seq<int32>, b: seq<int32>)
    ensures Requested(summaries, a + b) == Requested(summaries, a) + Requested(summaries, b)
    decreases |b|
  {
    if b == [] {
      assert a + b == a;
    } else {
      var n := |b| - 1;
      var front := b[..n];
      var last := if b[n] in summaries then [summaries[b[n]]] else [];
      assert (a + b)[..|a + b| - 1] == a + front;
      assert (a + b)[|a + b| - 1] == b[n];
      assert Requested(summaries, a + b) == Requested(summaries, a + front) + last;
      RequestedAppend(summaries, a, front);
      assert Requested(summaries, b) == Requested(summaries, front) + last;
    }
  }

  /** A single request is answered with its summary, or with nothing when
      the id has no record. With RequestedAppend this fixes the answer to
      any request list. */
  lemma RequestedOne(summaries: map<int, seq<byte>>, id: int32)
    ensures Requested(summaries, [id]) == (match SummaryOf(summaries, id) case Some(d) => [d] case None => [])
  {
    assert [id][..0] == [];
  }

  /** How many of the requested ids have a record, duplicates counted each
      time they are requested. */
  function PresentCount(summaries: map<int, seq<byte>>, requestIDs: seq<int32>): (n: nat)
    ensures n <= |requestIDs|
  {
    if requestIDs == [] then 0
    else (if requestIDs[0] in summaries then 1 else 0) + PresentCount(summaries, requestIDs[1..])
  }

  /** One summary is answered per requested id that has a record. */
  lemma {:induction false} RequestedLength(summaries: map<int, seq<byte>>, requestIDs: seq<int32>)
    ensures |Requested(summaries, requestIDs)| == PresentCount(summaries, requestIDs)
  {
    if requestIDs != [] {
      var head, tail := requestIDs[..1], requestIDs[1..];
      assert requestIDs == head + tail;
      RequestedAppend(summaries, head, tail);
      RequestedOne(summaries, requestIDs[0]);
      RequestedLength(summaries, tail);
    }
  }

  /** When every requested id has a record, the answer holds one summary per
      id, in request order. */
  lemma {:induction false} RequestedAllPresent(summaries: map<int, seq<byte>>, requestIDs: seq<int32>)
    requires forall i :: 0 <= i < |requestIDs| ==> requestIDs[i] in summaries
    ensures var r := Requested(summaries, requestIDs);
      |r| == |requestIDs| && forall i :: 0 <= i < |r| ==> r[i] == summaries[requestIDs[i]]
  {
    if requestIDs != [] {
      var n := |requestIDs| - 1;
      RequestedAllPresent(summaries, requestIDs[..n]);
    }
  }

  /** When no requested id has a record, the answer is empty. */
  lemma {:induction false} RequestedNonePresent(summaries: map<int, seq<byte>>, requestIDs: seq<int32>)
    requires forall i :: 0 <= i < |requestIDs| ==> requestIDs[i] !in summaries
    ensures Requested(summaries, requestIDs) == []
  {
    if requestIDs != [] {
      RequestedNonePresent(summaries, requestIDs[..|requestIDs| - 1]);
    }
  }

  /** What Process yields: nothing without an archive; otherwise the
      requested summaries followed by the end-of-transmission summary. */
  function Response(summaries: Option<map<int, seq<byte>>>, requestIDs: seq<int32>, eot: seq<byte>): (r: seq<seq<byte>>)
    ensures summaries.None? <==> r == []
    ensures summaries.Some? ==> r[|r| - 1] == eot
  {
    match summaries
    case None => []
    case Some(s) => (if AllRecordsRequested(requestIDs) then AllFrom(s, 1) else Requested(s, requestIDs)) + [eot]
  }

  /** A query for every record is answered with the summaries of records 1,
      2, ... in order up to the first missing id, then the end marker. */
  lemma ResponseAllRecords(summaries: map<int, seq<byte>>, requestIDs: seq<int32>, eot: seq<byte>)
    requires AllRecordsRequested(requestIDs)
    ensures var r := Response(Some(summaries), requestIDs, eot);
      && |r| >= 1 && r[|r| - 1] == eot
      && (forall j :: 0 <= j < |r| - 1 ==> SummaryOf(summaries, j + 1) == Some(r[j]))
      && SummaryOf(summaries, |r|) == None
  {
    AllFromConsecutive(summaries, 1);
    var r := Response(Some(summaries), requestIDs, eot);
    var all := AllFrom(summaries, 1);
    assert r == all + [eot];
    forall j | 0 <= j < |r| - 1
      ensures SummaryOf(summaries, j + 1) == Some(r[j])
    {
      assert r[j] == all[j];
    }
  }

  /** A query for specific ids is answered with one summary per requested
      id that has a record, in request order, then the end marker: one more
      buffer than the ids found. */
  lemma ResponseRequested(summaries: map<int, seq<byte>>, requestIDs: seq<int32>, eot: seq<byte>)
    requires !AllRecordsRequested(requestIDs)
    ensures var r := Response(Some(summaries), requestIDs, eot);
      && r == Requested(summaries, requestIDs) + [eot]
      && |r| == PresentCount(summaries, requestIDs) + 1
  {
    RequestedLength(summaries, requestIDs);
  }

  class PacketType11 {
    var requestIDs: seq<int32>
    var archive: Archive?

    constructor ()
      ensures requestIDs == [] && archive == null
    {
      requestIDs := [];
      archive := null;
    }

    /** The ProcessHandler. Its lazily yielded buffers are returned as one
        sequence; eot is the summary image of the StateRecord with id -1. */
    method Process(eot: seq<byte>) returns (responses: seq<seq<byte>>)
      ensures responses == Response(if archive == null then None else Some(archive.summaries), requestIDs, eot)
    {
      if archive == null {
        return [];
      }
      ghost var s := archive.summaries;
      responses := [];
      if |requestIDs| == 0 || (|requestIDs| == 1 && requestIDs[0] == -1) {
        var id := 0;
        while true
          invariant responses + AllFrom(s, id + 1) == AllFrom(s, 1)
          decreases |KeysFrom(s, id + 1)|
        {
          id := id + 1;
          var data := archive.ReadStateDataSummary(id);
          if data.None? {
            break;
          }
          KeysFromShrinks(s, id);
          responses := responses + [data.value];
        }
      } else {
        for i := 0 to |requestIDs|
          invariant responses == Requested(s, requestIDs[..i])
        {
          var data := archive.ReadStateDataSummary(requestIDs[i]);
          assert requestIDs[..i + 1][..i] == requestIDs[..i];
          if data.Some? {
            responses := responses + [data.value];
          }
        }
        assert requestIDs[..|requestIDs|] == requestIDs;
      }
      responses := responses + [eot];
    }
  }
}
