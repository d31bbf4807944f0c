/**
  The Airtable side of the batch job: which records are pending (`fetch_topics`) and
  what marking a record done (`mark_topic_done`) does to the table. The HTTP requests
  themselves are not modelled; a table is the list of records the GET returned.
*/
module Topics {
  import opened Wrappers

  /** One Airtable record: its id and, from its fields, the Topic and the Status when
      they are present. */
  datatype Record = Record(id: string, topic: Option<string>, status: Option<string>)

  /** One entry of `fetch_topics`: `(record['id'], topic)`. */
  datatype Pending = Pending(id: string, topic: string)

  const DoneStatus: string := "Done"

  /** `topic and status != 'Done'`, with `status = fields.get('Status', '')`: the topic
      is present and non-empty, and the status is anything but "Done", absence
      included. */
  predicate IsPending(r: Record) {
    && r.topic.Some? && r.topic.value != ""
    && r.status.GetOr("") != DoneStatus
  }

  function Entry(r: Record): Pending
    requires r.topic.Some?
  {
    Pending(r.id, r.topic.value)
  }

  /** `fetch_topics` over the records of one GET: the pending records, in order. There
      are no more entries than records, and every entry has a non-empty topic. */
  function FetchTopics(records: seq<Record>): (r: seq<Pending>)
    ensures |r| <= |records|
    ensures forall j :: 0 <= j < |r| ==> r[j].topic != ""
    decreases |records|
  {
    if records == [] then []
    else
      var last := records[|records| - 1];
      var init := FetchTopics(records[..|records| - 1]);
      var tail := if IsPending(last) then [Entry(last)] else [];
      assert forall j :: |init| <= j < |init + tail| ==> (init + tail)[j] == tail[j - |init|];
      init + tail
  }

  /** Filtering distributes over concatenation: entries keep the records' relative
      order. */
  lemma {:induction false} FetchTopicsAppend(xs: seq<Record>, ys: seq<Record>)
    ensures FetchTopics(xs + ys) == FetchTopics(xs) + FetchTopics(ys)
    decreases |ys|
  {
    if ys == [] {
      assert xs + ys == xs;
    } else {
      var init := ys[..|ys| - 1];
      assert (xs + ys)[..|xs + ys| - 1] == xs + init;
      FetchTopicsAppend(xs, init);
    }
  }

  /** An entry is fetched exactly when some record with that id and topic is pending. */
  lemma {:induction false} FetchTopicsMembership(records: seq<Record>, p: Pending)
    ensures p in FetchTopics(records) <==>
      exists i :: 0 <= i < |records| && IsPending(records[i]) && Entry(records[i]) == p
    decreases |records|
  {
    if records != [] {
      var init := records[..|records| - 1];
      FetchTopicsMembership(init, p);
      if exists i :: 0 <= i < |init| && IsPending(init[i]) && Entry(init[i]) == p {
        var i :| 0 <= i < |init| && IsPending(init[i]) && Entry(init[i]) == p;
        assert records[i] == init[i];
      }
      if exists i :: 0 <= i < |records| && IsPending(records[i]) && Entry(records[i]) == p {
        var i :| 0 <= i < |records| && IsPending(records[i]) && Entry(records[i]) == p;
        if i < |init| {
          assert init[i] == records[i];
        }
      }
    }
  }

  /** The loop of `fetch_topics`, appending `(id, topic)` for each pending record. */
  method FetchTopicsLoop(records: seq<Record>) returns (topics: seq<Pending>)
    ensures topics == FetchTopics(records)
  {
    topics := [];
    var i := 0;
    while i < |records|
      invariant 0 <= i <= |records|
      invariant topics == FetchTopics(records[..i])
    {
      var record := records[i];
      if record.topic.Some? && record.topic.value != "" && record.status.GetOr("") != DoneStatus {
        topics := topics + [Pending(record.id, record.topic.value)];
      }
      assert records[..i + 1][..i] == records[..i];
      i := i + 1;
    }
    assert records[..i] == records;
  }

  /** `mark_topic_done(id)`: the PATCH sets Status to "Done" on the record with that id
      and leaves every other field and record as it was. */
  function MarkDone(records: seq<Record>, id: string): (r: seq<Record>)
    ensures |r| == |records|
    ensures forall i :: 0 <= i < |r| ==>
      r[i] == if records[i].id == id then records[i].(status := Some(DoneStatus)) else records[i]
  {
    seq(|records|, i requires 0 <= i < |records| =>
      if records[i].id == id then records[i].(status := Some(DoneStatus)) else records[i])
  }

  /** Marks every id of `ids`, in order. */
  function MarkAllDone(records: seq<Record>, ids: seq<string>): seq<Record>
    decreases |ids|
  {
    if ids == [] then records else MarkAllDone(MarkDone(records, ids[0]), ids[1..])
  }

  /** The entries of `ps` whose id is not in `ids`, in order. */
  function Without(ps: seq<Pending>, ids: set<string>): (r: seq<Pending>)
    ensures forall p :: p in r <==> p in ps && p.id !in ids
    decreases |ps|
  {
    if ps == [] then []
    else Without(ps[..|ps| - 1], ids) + (if ps[|ps| - 1].id in ids then [] else [ps[|ps| - 1]])
  }

  /** After marking an id done, the next fetch returns what it returned before minus the
      entries of that id, in the same order. */
  lemma {:induction false} FetchAfterMarkDone(records: seq<Record>, id: string)
    ensures FetchTopics(MarkDone(records, id)) == Without(FetchTopics(records), {id})
    decreases |records|
  {
    if records != [] {
      var init := records[..|records| - 1];
      var m := MarkDone(records, id);
      assert m[..|m| - 1] == MarkDone(init, id);
      FetchAfterMarkDone(init, id);
      var last := records[|records| - 1];
      var tail := if IsPending(last) then [Entry(last)] else [];
      WithoutAppend(FetchTopics(init), tail, {id});
    }
  }

  lemma WithoutAppend(ps: seq<Pending>, qs: seq<Pending>, ids: set<string>)
    requires |qs| <= 1
    ensures Without(ps + qs, ids) == Without(ps, ids) + Without(qs, ids)
  {
    if qs == [] {
      assert ps + qs == ps;
    } else {
      assert (ps + qs)[..|ps + qs| - 1] == ps;
      assert qs[..0] == [];
    }
  }

  lemma {:induction false} WithoutUnion(ps: seq<Pending>, a: set<string>, b: set<string>)
    ensures Without(Without(ps, a), b) == Without(ps, a + b)
    decreases |ps|
  {
    if ps != [] {
      var init := ps[..|ps| - 1];
      WithoutUnion(init, a, b);
      var last := ps[|ps| - 1];
      var tail := if last.id in a then [] else [last];
      WithoutAppend(Without(init, a), tail, b);
    }
  }

  /** The ids of a list, as a set. */
  function IdSet(ids: seq<string>): (r: set<string>)
    ensures forall x :: x in r <==> x in ids
    decreases |ids|
  {
    if ids == [] then {} else {ids[0]} + IdSet(ids[1..])
  }

  /** After the acknowledgements of a run, the next fetch returns exactly the entries
      whose id was not acknowledged, in their original order. */
  lemma {:induction false} FetchAfterMarkAllDone(records: seq<Record>, ids: seq<string>)
    ensures FetchTopics(MarkAllDone(records, ids)) == Without(FetchTopics(records), IdSet(ids))
    decreases |ids|
  {
    if ids == [] {
      WithoutNothing(FetchTopics(records));
    } else {
      var m := MarkDone(records, ids[0]);
      FetchAfterMarkAllDone(m, ids[1..]);
      FetchAfterMarkDone(records, ids[0]);
      WithoutUnion(FetchTopics(records), {ids[0]}, IdSet(ids[1..]));
    }
  }

  lemma {:induction false} WithoutNothing(ps: seq<Pending>)
    ensures Without(ps, {}) == ps
    decreases |ps|
  {
    if ps != [] {
      WithoutNothing(ps[..|ps| - 1]);
    }
  }
}
