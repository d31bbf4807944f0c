/**
  `batch_generate` of the Airtable scheduler: for every pending topic, in order,
  request an outline, build and save the deck, e-mail it, and mark the record done.
  The first step that raises ends that topic's attempt; the loop goes on with the next
  topic.

  The outside world is an oracle: `Attempt` says, for one topic, what the outline
  service answered, what the image service answers, what time it is, and which of
  saving, sending and marking go through. A run is the trace of steps it performs.
*/
module Batch {
  import opened Wrappers
  import opened Clock
  import opened Outline
  import opened Deck
  import opened Topics
  import opened Seqs

  /** What the world does during the attempt on one topic. */
  datatype Attempt = Attempt(
    outline: Option<string>,   // generate_slide_content: the text, or None where it raises
    images: ImageOracle,       // generate_image, per slide and prompt
    now: Instant,              // datetime.now() while naming the file
    saved: bool,               // building the deck (add_picture included) and prs.save return normally
    emailed: bool,             // send_email_with_attachment returns normally
    marked: bool               // mark_topic_done returns normally
  )

  /** Where a deck is saved: `os.path.join('slides', filename)` with the file name made
      from the topic and the time of saving. */
  datatype SaveName = SaveName(topic: string, now: Instant) {
    function Path(): string {
      DeckPath(topic, now)
    }
  }

  /** One step of an attempt. `BuildDeck(name, outline, images)` builds the batch deck
      of `outline` with the pictures `images` serves and saves it at `name.Path()`;
      `SendEmail` attaches the file saved under `attachment`. */
  datatype Step =
    | RequestOutline
    | BuildDeck(name: SaveName, outline: string, images: ImageOracle)
    | SendEmail(subject: string, attachment: SaveName)
    | MarkTopicDone(recordId: string)
  {
    /** The deck a `BuildDeck` step builds for `topic`. */
    function BuiltDeck(topic: string): seq<SlideRecord>
      requires BuildDeck?
    {
      TolerantDeck(outline, topic, images)
    }
  }

  /** A step performed for a topic, and whether it returned normally. */
  datatype Event = Event(id: string, topic: string, step: Step, ok: bool)

  /** The position of a step in an attempt. */
  function Stage(s: Step): nat {
    match s
    case RequestOutline => 0
    case BuildDeck(_, _, _) => 1
    case SendEmail(_, _) => 2
    case MarkTopicDone(_) => 3
  }

  /** Whether every step of the attempt goes through. */
  predicate Succeeds(a: Attempt) {
    a.outline.Some? && a.saved && a.emailed && a.marked
  }

  /** Whether the step at stage `j` of an attempt returns normally. */
  function GoesThrough(a: Attempt, j: nat): bool
    requires j < 4
  {
    [a.outline.Some?, a.saved, a.emailed, a.marked][j]
  }

  /** The body of the `try` for one topic: the steps performed, in order from the first,
      each returning normally exactly when the world lets it, every one but the last
      returning normally, and the attempt stopping at the first step that raises. The
      last step goes through exactly when the attempt succeeds. The deck is the batch
      deck of the outline the service answered, with the pictures of this attempt's
      image service. */
  function TopicEvents(p: Pending, a: Attempt): (ev: seq<Event>)
    ensures 1 <= |ev| <= 4
    ensures forall j :: 0 <= j < |ev| ==> Stage(ev[j].step) == j && ev[j].id == p.id && ev[j].topic == p.topic
    ensures forall j :: 0 <= j < |ev| ==> ev[j].ok == GoesThrough(a, j)
    ensures forall j :: 0 <= j < |ev| - 1 ==> ev[j].ok
    ensures |ev| < 4 ==> !ev[|ev| - 1].ok
    ensures ev[|ev| - 1].ok <==> Succeeds(a)
    ensures |ev| >= 2 ==> a.outline.Some? && ev[1].step.BuildDeck? && ev[1].step.outline == a.outline.value
    ensures |ev| >= 2 ==> ev[1].step.images == a.images
  {
    var ask := Event(p.id, p.topic, RequestOutline, a.outline.Some?);
    if a.outline.None? then [ask]
    else
      var name := SaveName(p.topic, a.now);
      var build := Event(p.id, p.topic, BuildDeck(name, a.outline.value, a.images), a.saved);
      if !a.saved then [ask, build]
      else
        var send := Event(p.id, p.topic, SendEmail(p.topic, name), a.emailed);
        if !a.emailed then [ask, build, send]
        else [ask, build, send, Event(p.id, p.topic, MarkTopicDone(p.id), a.marked)]
  }

  /** The run over a list of pending topics, attempt `k` on topic `k`. Every topic is
      attempted once, in order, whatever fails on the others; the run marks done
      exactly the topics whose every step went through, in order. */
  function Run(topics: seq<Pending>, world: nat -> Attempt): (ev: seq<Event>)
    ensures Requested(ev) == topics
    ensures Acknowledged(ev) == SucceededIds(topics, world)
    decreases |topics|
  {
    if topics == [] then []
    else
      var k := |topics| - 1;
      var init, last := Run(topics[..k], world), TopicEvents(topics[k], world(k));
      RequestedAppend(init, last);
      AcknowledgedAppend(init, last);
      TopicRequested(topics[k], world(k));
      TopicAcknowledged(topics[k], world(k));
      LastElement(topics);
      init + last
  }

  /** `batch_generate` over the records one GET returned: an attempt for every pending
      record, in fetch order, and an acknowledgement for exactly those that went
      through. */
  function BatchGenerate(records: seq<Record>, world: nat -> Attempt): (ev: seq<Event>)
    ensures Requested(ev) == FetchTopics(records)
    ensures Acknowledged(ev) == SucceededIds(FetchTopics(records), world)
  {
    Run(FetchTopics(records), world)
  }

  /** The loop of `batch_generate`, one attempt per fetched topic. */
  method BatchGenerateLoop(records: seq<Record>, world: nat -> Attempt) returns (events: seq<Event>)
    ensures events == BatchGenerate(records, world)
  {
    var topics := FetchTopicsLoop(records);
    events := [];
    var k := 0;
    while k < |topics|
      invariant 0 <= k <= |topics|
      invariant events == Run(topics[..k], world)
    {
      RunStep(topics, world, k);
      events := events + TopicEvents(topics[k], world(k));
      k := k + 1;
    }
    assert topics[..k] == topics;
  }

  /** Running one more topic appends that topic's attempt. */
  lemma RunStep(topics: seq<Pending>, world: nat -> Attempt, k: nat)
    requires k < |topics|
    ensures Run(topics[..k + 1], world) == Run(topics[..k], world) + TopicEvents(topics[k], world(k))
  {
    assert topics[..k + 1][..k] == topics[..k];
  }

  // ----- what a run promises ---------------------------------------------------------

  /** The topics an outline was requested for, in order. */
  function Requested(events: seq<Event>): seq<Pending>
    decreases |events|
  {
    if events == [] then []
    else
      var e := events[|events| - 1];
      Requested(events[..|events| - 1]) + (if e.step.RequestOutline? then [Pending(e.id, e.topic)] else [])
  }

  /** The record ids marked done, in order: the records the run acknowledges. */
  function Acknowledged(events: seq<Event>): seq<string>
    decreases |events|
  {
    if events == [] then []
    else
      var e := events[|events| - 1];
      Acknowledged(events[..|events| - 1]) + (if e.step.MarkTopicDone? && e.ok then [e.id] else [])
  }

  /** The ids of the topics whose attempt goes through, in order: the reference for
      what a run acknowledges. */
  function SucceededIds(topics: seq<Pending>, world: nat -> Attempt): seq<string>
    decreases |topics|
  {
    if topics == [] then []
    else
      var k := |topics| - 1;
      SucceededIds(topics[..k], world) + (if Succeeds(world(k)) then [topics[k].id] else [])
  }

  lemma {:induction false} RequestedAppend(xs: seq<Event>, ys: seq<Event>)
    ensures Requested(xs + ys) == Requested(xs) + Requested(ys)
    decreases |ys|
  {
    if ys == [] {
      assert xs + ys == xs;
    } else {
      assert (xs + ys)[..|xs + ys| - 1] == xs + ys[..|ys| - 1];
      RequestedAppend(xs, ys[..|ys| - 1]);
    }
  }

  lemma {:induction false} AcknowledgedAppend(xs: seq<Event>, ys: seq<Event>)
    ensures Acknowledged(xs + ys) == Acknowledged(xs) + Acknowledged(ys)
    decreases |ys|
  {
    if ys == [] {
      assert xs + ys == xs;
    } else {
      assert (xs + ys)[..|xs + ys| - 1] == xs + ys[..|ys| - 1];
      AcknowledgedAppend(xs, ys[..|ys| - 1]);
    }
  }

  /** Events whose only outline request is the first. */
  lemma {:induction false} RequestedFirstOnly(ev: seq<Event>)
    requires |ev| >= 1 && ev[0].step.RequestOutline?
    requires forall j :: 1 <= j < |ev| ==> !ev[j].step.RequestOutline?
    ensures Requested(ev) == [Pending(ev[0].id, ev[0].topic)]
    decreases |ev|
  {
    if |ev| > 1 {
      RequestedFirstOnly(ev[..|ev| - 1]);
    }
  }

  /** Events with no successful marking but possibly the last. */
  lemma {:induction false} AcknowledgedLastOnly(ev: seq<Event>)
    requires |ev| >= 1
    requires forall j :: 0 <= j < |ev| - 1 ==> !ev[j].step.MarkTopicDone?
    ensures Acknowledged(ev) ==
      if ev[|ev| - 1].step.MarkTopicDone? && ev[|ev| - 1].ok then [ev[|ev| - 1].id] else []
    decreases |ev|
  {
    if |ev| > 1 {
      NoneAcknowledged(ev[..|ev| - 1]);
    }
  }

  lemma {:induction false} NoneAcknowledged(ev: seq<Event>)
    requires forall j :: 0 <= j < |ev| ==> !ev[j].step.MarkTopicDone?
    ensures Acknowledged(ev) == []
    decreases |ev|
  {
    if ev != [] {
      NoneAcknowledged(ev[..|ev| - 1]);
    }
  }

  lemma TopicRequested(p: Pending, a: Attempt)
    ensures Requested(TopicEvents(p, a)) == [p]
  {
    var ev := TopicEvents(p, a);
    RequestedFirstOnly(ev);
  }

  lemma TopicAcknowledged(p: Pending, a: Attempt)
    ensures Acknowledged(TopicEvents(p, a)) == if Succeeds(a) then [p.id] else []
  {
    var ev := TopicEvents(p, a);
    AcknowledgedLastOnly(ev);
  }

  /** A record is marked done only right after the e-mail for the same topic was sent
      without raising: marking never comes first. */
  predicate MarkFollowsEmail(events: seq<Event>) {
    forall j :: 0 <= j < |events| && events[j].step.MarkTopicDone? ==>
      && j > 0 && events[j - 1].step.SendEmail? && events[j - 1].ok
      && events[j - 1].id == events[j].id && events[j].step.recordId == events[j].id
  }

  lemma MarkFollowsEmailAppend(xs: seq<Event>, ys: seq<Event>)
    requires MarkFollowsEmail(xs) && MarkFollowsEmail(ys)
    requires ys != [] ==> !ys[0].step.MarkTopicDone?
    ensures MarkFollowsEmail(xs + ys)
  {
    var zs := xs + ys;
    forall j | 0 <= j < |zs| && zs[j].step.MarkTopicDone?
      ensures j > 0 && zs[j - 1].step.SendEmail? && zs[j - 1].ok && zs[j - 1].id == zs[j].id
    {
      if j >= |xs| {
        assert zs[j] == ys[j - |xs|];
        assert zs[j - 1] == ys[j - |xs| - 1];
      }
    }
  }

  lemma TopicMarkFollowsEmail(p: Pending, a: Attempt)
    ensures MarkFollowsEmail(TopicEvents(p, a))
    ensures !TopicEvents(p, a)[0].step.MarkTopicDone?
  {
  }

  /** Over a whole run, every marking directly follows a successful e-mail of the same
      record. */
  lemma {:induction false} RunMarkFollowsEmail(topics: seq<Pending>, world: nat -> Attempt)
    ensures MarkFollowsEmail(Run(topics, world))
    decreases |topics|
  {
    if topics != [] {
      var k := |topics| - 1;
      RunMarkFollowsEmail(topics[..k], world);
      TopicMarkFollowsEmail(topics[k], world(k));
      MarkFollowsEmailAppend(Run(topics[..k], world), TopicEvents(topics[k], world(k)));
    }
  }

  /** The deck that is e-mailed is the one just saved: the attachment is the file the
      deck was saved to, that file is the one named after the topic and the time of
      saving, and the subject is the topic. */
  lemma EmailCarriesSavedDeck(p: Pending, a: Attempt)
    requires |TopicEvents(p, a)| >= 3
    ensures var ev := TopicEvents(p, a);
      && ev[1].step.BuildDeck? && ev[1].ok
      && ev[2].step == SendEmail(p.topic, ev[1].step.name)
      && ev[1].step.name.Path() == DeckPath(p.topic, a.now)
  {
  }

  /** The deck saved and e-mailed holds exactly the parsed outline, one slide per block,
      whatever the image service did. */
  lemma SavedDeckIsParsedOutline(p: Pending, a: Attempt)
    requires |TopicEvents(p, a)| >= 2
    ensures var ev := TopicEvents(p, a);
      && a.outline.Some? && ev[1].step.BuildDeck?
      && ev[1].step.BuiltDeck(p.topic) == TolerantDeck(a.outline.value, p.topic, a.images)
      && |ev[1].step.BuiltDeck(p.topic)| == |Blocks(a.outline.value)|
      && ForgetAll(ev[1].step.BuiltDeck(p.topic)) == Parse(a.outline.value)
  {
    TolerantImagesIrrelevant(a.outline.value, p.topic, a.images, a.images);
  }

  /** A topic whose e-mail went out but whose marking raised is not acknowledged: the
      record stays pending and the next run sends the deck again. */
  lemma EmailedButUnmarked(p: Pending, a: Attempt)
    requires a.outline.Some? && a.saved && a.emailed && !a.marked
    ensures var ev := TopicEvents(p, a);
      && |ev| == 4 && ev[2].step.SendEmail? && ev[2].ok
      && Acknowledged(ev) == []
  {
    TopicAcknowledged(p, a);
  }

  /** After a run marks what it acknowledged, the next fetch returns exactly the topics
      of the first fetch whose id no successful attempt marked, in the same order. */
  lemma NextFetch(records: seq<Record>, world: nat -> Attempt)
    ensures var topics := FetchTopics(records);
      var after := MarkAllDone(records, Acknowledged(BatchGenerate(records, world)));
      FetchTopics(after) == Without(topics, IdSet(SucceededIds(topics, world)))
  {
    var topics := FetchTopics(records);
    FetchAfterMarkAllDone(records, SucceededIds(topics, world));
  }

  /** An id is among those of the succeeding attempts exactly when some topic with that
      id was attempted successfully. */
  lemma {:induction false} SucceededIdsMembership(topics: seq<Pending>, world: nat -> Attempt, x: string)
    ensures x in SucceededIds(topics, world) <==>
      exists i :: 0 <= i < |topics| && Succeeds(world(i)) && topics[i].id == x
    decreases |topics|
  {
    if topics != [] {
      var n := |topics| - 1;
      var init := topics[..n];
      SucceededIdsMembership(init, world, x);
      var tail := if Succeeds(world(n)) then [topics[n].id] else [];
      assert SucceededIds(topics, world) == SucceededIds(init, world) + tail;
      assert x in SucceededIds(topics, world) <==> x in SucceededIds(init, world) || x in tail;
      if exists i :: 0 <= i < n && Succeeds(world(i)) && init[i].id == x {
        var i :| 0 <= i < n && Succeeds(world(i)) && init[i].id == x;
        assert topics[i] == init[i];
      }
      if exists i :: 0 <= i < |topics| && Succeeds(world(i)) && topics[i].id == x {
        var i :| 0 <= i < |topics| && Succeeds(world(i)) && topics[i].id == x;
        if i < n {
          assert init[i] == topics[i];
        }
      }
    }
  }

  /** A topic whose attempt failed stays pending for the next run unless another fetched
      topic with the same record id went through. */
  lemma FailedTopicStays(records: seq<Record>, world: nat -> Attempt, k: nat)
    requires k < |FetchTopics(records)|
    requires !Succeeds(world(k))
    requires forall i :: 0 <= i < |FetchTopics(records)| && FetchTopics(records)[i].id == FetchTopics(records)[k].id ==>
      !Succeeds(world(i))
    ensures var after := MarkAllDone(records, Acknowledged(BatchGenerate(records, world)));
      FetchTopics(records)[k] in FetchTopics(after)
  {
    var topics := FetchTopics(records);
    NextFetch(records, world);
    SucceededIdsMembership(topics, world, topics[k].id);
  }
}
