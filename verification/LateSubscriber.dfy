/**
  * A subscriber that comes after 100001 messages: the run on which replay leaves messages out.
  */
module LateSubscriber {
  import opened ByteStrings
  import opened KeySpace
  import opened LmdbStorage
  import opened RangeScan
  import opened BrokerModel
  import opened Numbering
  import opened Retention
  import opened Replay
  import opened ReachableRuns
  import opened TopicIndex
  import opened Delivery

  const START := Scene(FRESH, map[], Outside, [], multiset{})

  const LATE: nat := MAX_STORED_MESSAGES + 1

  lemma PossibleSnoc(d: Scene, x: Session, topic: Bytes, ms: seq<Move>, m: Move)
    requires PossibleRun(d, x, topic, ms) && Possible(PlayAll(d, x, topic, ms), x, m)
    ensures PossibleRun(d, x, topic, ms + [m])
    ensures PlayAll(d, x, topic, ms + [m]) == Play(PlayAll(d, x, topic, ms), x, topic, m)
  {
    assert (ms + [m])[..|ms|] == ms;
  }

  function Publishing(topic: Bytes, payload: Bytes, n: nat): seq<Move> {
    if n == 0 then [] else Publishing(topic, payload, n - 1) + [DoPublish(topic, payload)]
  }

  lemma {:induction false} PublishingPlays(x: Session, topic: Bytes, payload: Bytes, n: nat)
    requires 0 !in topic && n <= LATE
    ensures var ms := Publishing(topic, payload, n);
            var d := PlayAll(START, x, topic, ms);
            && PossibleRun(START, x, topic, ms) && d.phase.Outside?
            && d.h == Run(SEP, FRESH, ManyPublishes(topic, payload, n)) && d.h.state.current == n
            && |d.h.sent| == n && forall i :: 0 <= i < n ==> d.h.sent[i].topic == topic && d.h.sent[i].payload == payload
  {
    hide PossibleRun, PlayAll, Run, Fanout, CommittedRun, Cut, StoresAbove, Numbered, PublishCount, SinceRestart;
    if n == 0 {
      NothingPlayed(x, topic);
    } else {
      PublishingPlays(x, topic, payload, n - 1);
      var ms, evs := Publishing(topic, payload, n - 1), ManyPublishes(topic, payload, n - 1);
      PossibleSnoc(START, x, topic, ms, DoPublish(topic, payload));
      ManyPublishesHappen(SEP, topic, payload, n - 1);
      CommittedSnoc(SEP, FRESH, evs, Publish(topic, payload, COMMITTED));
    }
  }

  lemma NothingPlayed(x: Session, topic: Bytes)
    ensures PossibleRun(START, x, topic, []) && PlayAll(START, x, topic, []) == START && Run(SEP, FRESH, []) == FRESH
  {
  }

  /** What is left of a replay list can be sent. */
  lemma {:induction false} ReplayDrains(x: Session, topic: Bytes, ms: seq<Move>) returns (all: seq<Move>)
    requires PossibleRun(START, x, topic, ms)
    ensures PossibleRun(START, x, topic, all)
    ensures var d, r := PlayAll(START, x, topic, ms), PlayAll(START, x, topic, all);
            r.pending == [] && r.phase == d.phase && r.h == d.h
    decreases |PlayAll(START, x, topic, ms).pending|
  {
    hide PossibleRun, PlayAll;
    all := ms;
    if PlayAll(START, x, topic, ms).pending != [] {
      PossibleSnoc(START, x, topic, ms, DoReplaySend);
      all := ReplayDrains(x, topic, ms + [DoReplaySend]);
    }
  }

  /**
    * 100001 publishes on a topic, a subscription to it, its snapshot off a database that holds
    * them, and the replay drained: message 2 was never sent.
    */
  lemma LateSubscriberMisses(x: Session, topic: Bytes, payload: Bytes) returns (ms: seq<Move>)
    requires 0 !in topic && topic != HASH
    ensures PossibleRun(START, x, topic, ms)
    ensures var r := PlayAll(START, x, topic, ms);
            && r.phase.Replaying? && r.pending == []
            && IsMessage(r.h, topic, 2, payload) && r.got[(2, payload)] == 0 && !AllArrived(r, topic)
  {
    hide PossibleRun, PlayAll, Run, CommittedRun, IsScan, Represents, Visited, Consistent, Selected, Decoded;
    var evs := ManyPublishes(topic, payload, LATE);
    var h := Run(SEP, FRESH, evs);
    ms := Publishing(topic, payload, LATE);
    PublishingPlays(x, topic, payload, LATE);
    PossibleSnoc(START, x, topic, ms, DoRegister);
    ms := ms + [DoRegister];
    ManyPublishesHappen(SEP, topic, payload, LATE);
    EmptyDatabase();
    CommittedIsValid(evs);
    var db := RunHasDatabase(SEP, FRESH, evs, map[]);
    VisitedIsScan(db, h.state.store, 0, MAX_STORED_MESSAGES);
    var snapshot := DoSnapshot(Visited(db, 0, MAX_STORED_MESSAGES).value);
    PossibleSnoc(START, x, topic, ms, snapshot);
    ms := ReplayDrains(x, topic, ms + [snapshot]);
    FreshScene(x, topic);
    EveryCopyIsOwed(START, x, topic, ms);
  }
}
