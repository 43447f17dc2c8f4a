/**
  * One subscription among concurrent publishes.  Registration happens under the broker's
  * lock; replay takes a snapshot of the store and sends it afterwards, outside the lock,
  * while publishes go on.
  */
module Delivery {
  import opened ByteStrings
  import opened KeySpace
  import opened LmdbStorage
  import opened RangeScan
  import opened BrokerModel
  import opened Numbering
  import opened Retention
  import opened Replay
  import opened TopicIndex
  import opened SnapshotLimit

  /** How far the subscription has come: the counter at registration, the counter and the stored numbers at the snapshot. */
  datatype Phase = Outside | Live(reg: nat) | Replaying(reg: nat, snap: nat, kept: set<nat>)

  /** `got` counts the payloads sent to the session, each with the number of its message. */
  datatype Scene = Scene(h: History, index: Index, phase: Phase, pending: seq<Loaded>, got: multiset<(nat, Bytes)>)

  datatype Move =
    | DoPublish(topic: Bytes, payload: Bytes)
    | DoRegister                          // the locked half of subscribe
    | DoSnapshot(visited: seq<Stored>)    // the read transaction of replay
    | DoReplaySend                        // replay sends its next message
    | DoOther(change: Change)             // other sessions subscribe, unsubscribe, leave
    | DoAck(ev: Event)                    // ACKs and client registrations

  function Pair(l: Loaded): (nat, Bytes) { (l.seqId, l.payload) }

  function Play(d: Scene, x: Session, topic: Bytes, m: Move): Scene {
    match m
    case DoPublish(t, payload) =>
      var h := Next(DOCUMENTED_SEPARATOR, d.h, Publish(t, payload, COMMITTED));
      var id := (h.state.current, payload);
      d.(h := h, got := d.got[id := d.got[id] + Fanout(d.index, t)[x]])
    case DoRegister => d.(index := Subscribed(d.index, x, topic), phase := Live(d.h.state.current))
    case DoSnapshot(visited) =>
      d.(phase := Replaying(if d.phase.Live? then d.phase.reg else 0, d.h.state.current, d.h.state.store.msgs.Keys),
         pending := Selected(Decoded(visited), topic, {}))
    case DoReplaySend =>
      if d.pending == [] then d
      else d.(pending := d.pending[1..], got := d.got + multiset{Pair(d.pending[0])})
    case DoOther(change) => d.(index := Changed(d.index, change))
    case DoAck(ev) => d.(h := Next(DOCUMENTED_SEPARATOR, d.h, ev))
  }

  /** Published topics hold no NUL; the snapshot is a cursor scan from zero. */
  ghost predicate Possible(d: Scene, x: Session, m: Move) {
    match m
    case DoPublish(t, payload) => 0 !in t && d.h.state.current + 1 < U64
    case DoRegister => d.phase.Outside?
    case DoSnapshot(visited) =>
      d.phase.Live? && IsScan(visited, d.h.state.store.msgs, 0, MAX_STORED_MESSAGES)
    case DoReplaySend => d.pending != []
    case DoOther(change) => change.x != x
    case DoAck(ev) => (ev.Ack? || ev.Register?) && Commits(ev) && Allowed(d.h, ev)
  }

  function PlayAll(d: Scene, x: Session, topic: Bytes, ms: seq<Move>): Scene {
    if ms == [] then d else Play(PlayAll(d, x, topic, ms[..|ms| - 1]), x, topic, ms[|ms| - 1])
  }

  ghost predicate PossibleRun(d: Scene, x: Session, topic: Bytes, ms: seq<Move>) {
    ms == [] || (&& PossibleRun(d, x, topic, ms[..|ms| - 1])
                 && Possible(PlayAll(d, x, topic, ms[..|ms| - 1]), x, ms[|ms| - 1]))
  }

  // ----- What is owed -----

  /** Message `s` was published on `topic` with this payload. */
  predicate IsMessage(h: History, topic: Bytes, s: nat, payload: Bytes) {
    1 <= s <= |h.sent| && h.sent[s - 1].topic == topic && h.sent[s - 1].payload == payload
  }

  /** Up to a counter of 100000 a snapshot holds everything; above it, the stored powers of ten. */
  predicate Replayed(snap: nat, kept: set<nat>, s: nat) {
    if snap <= MAX_STORED_MESSAGES then s <= snap else s in kept && s in POWERS
  }

  /** Once by replay if the snapshot holds it, once live from registration on. */
  function Owed(phase: Phase, s: nat): nat {
    match phase
    case Outside => 0
    case Live(reg) => if s > reg then 1 else 0
    case Replaying(reg, snap, kept) => (if Replayed(snap, kept, s) then 1 else 0) + (if s > reg then 1 else 0)
  }

  function Bag(pending: seq<Loaded>): multiset<(nat, Bytes)> {
    if pending == [] then multiset{} else multiset{Pair(pending[0])} + Bag(pending[1..])
  }

  ghost predicate TopicsNulFree(h: History) {
    forall i :: 0 <= i < |h.sent| ==> 0 !in h.sent[i].topic
  }

  ghost predicate IndexFits(d: Scene, x: Session, topic: Bytes) {
    forall t :: x in Subscribers(d.index, t) <==> t == topic && !d.phase.Outside?
  }

  ghost predicate PhaseFits(d: Scene) {
    match d.phase
    case Outside => d.pending == []
    case Live(reg) => d.pending == [] && reg <= d.h.state.current
    case Replaying(reg, snap, kept) => reg <= snap <= d.h.state.current && forall s :: s in kept ==> s <= snap
  }

  /** Sent and pending together are what is owed, message by message, and nothing else. */
  ghost predicate Accounted(d: Scene, topic: Bytes) {
    forall s: nat, p :: (d.got + Bag(d.pending))[(s, p)] == if IsMessage(d.h, topic, s, p) then Owed(d.phase, s) else 0
  }

  ghost predicate Consistent(d: Scene, x: Session, topic: Bytes) {
    && Numbered(DOCUMENTED_SEPARATOR, d.h, 0) && Retained(d.h) && Gapless(d.h) && TopicsNulFree(d.h)
    && IndexFits(d, x, topic) && PhaseFits(d) && Accounted(d, topic)
  }

  lemma FreshScene(x: Session, topic: Bytes)
    ensures Consistent(Scene(FRESH, map[], Outside, [], multiset{}), x, topic)
  {
  }

  // ----- Moves -----

  lemma BrokerMove(h: History, ev: Event)
    requires Numbered(DOCUMENTED_SEPARATOR, h, 0) && Retained(h) && Gapless(h) && Allowed(h, ev) && Commits(ev)
    ensures Numbered(DOCUMENTED_SEPARATOR, Next(DOCUMENTED_SEPARATOR, h, ev), 0)
    ensures Retained(Next(DOCUMENTED_SEPARATOR, h, ev)) && Gapless(Next(DOCUMENTED_SEPARATOR, h, ev))
  {
    NextKeepsNumbered(DOCUMENTED_SEPARATOR, h, 0, ev);
    NextKeepsRetained(DOCUMENTED_SEPARATOR, h, 0, ev);
    NextKeepsGapless(DOCUMENTED_SEPARATOR, h, 0, ev);
  }

  /** A live publish reaches the session once if it is on the topic and the session is registered. */
  lemma LiveCopies(d: Scene, x: Session, topic: Bytes, t: Bytes)
    requires IndexFits(d, x, topic) && topic != HASH
    ensures Fanout(d.index, t)[x] == if t == topic && !d.phase.Outside? then 1 else 0
  {
    FanoutCount(d.index, t, x);
  }

  lemma PublishMove(d: Scene, x: Session, topic: Bytes, t: Bytes, payload: Bytes)
    requires Consistent(d, x, topic) && topic != HASH && Possible(d, x, DoPublish(t, payload))
    ensures Consistent(Play(d, x, topic, DoPublish(t, payload)), x, topic)
  {
    hide Retained, Numbered, Gapless, Replayed, Bag, Fanout, Accounted, IndexFits, Published;
    var d' := Play(d, x, topic, DoPublish(t, payload));
    BrokerMove(d.h, Publish(t, payload, COMMITTED));
    MessagesEndAtCounter(d.h);
    MessagesEndAtCounter(d'.h);
    LiveCopies(d, x, topic, t);
    PublishAccounted(d, d', topic, t, payload, Fanout(d.index, t)[x]);
    IndexFitsSame(d, d', x, topic);
  }

  lemma IndexFitsSame(d: Scene, d': Scene, x: Session, topic: Bytes)
    requires IndexFits(d, x, topic) && d'.index == d.index && d'.phase.Outside? == d.phase.Outside?
    ensures IndexFits(d', x, topic)
  {
  }

  lemma PublishAccounted(d: Scene, d': Scene, topic: Bytes, t: Bytes, payload: Bytes, copies: nat)
    requires Accounted(d, topic) && PhaseFits(d) && d.h.state.current == |d.h.sent|
    requires d'.h.sent == d.h.sent + [Sent(|d.h.sent| + 1, t, payload)]
    requires d'.phase == d.phase && d'.pending == d.pending
    requires var id := (|d.h.sent| + 1, payload); d'.got == d.got[id := d.got[id] + copies]
    requires copies == if t == topic && !d.phase.Outside? then 1 else 0
    ensures Accounted(d', topic)
  {
    hide Bag;
    var id := (|d.h.sent| + 1, payload);
    forall s: nat, p
      ensures (d'.got + Bag(d'.pending))[(s, p)] == if IsMessage(d'.h, topic, s, p) then Owed(d'.phase, s) else 0
    {
      assert (d.got + Bag(d.pending))[(s, p)] == if IsMessage(d.h, topic, s, p) then Owed(d.phase, s) else 0;
      if s <= |d.h.sent| {
        assert IsMessage(d'.h, topic, s, p) <==> IsMessage(d.h, topic, s, p);
      }
    }
  }

  // ----- The snapshot -----

  lemma BagAbsent(pending: seq<Loaded>, s: nat, p: Bytes)
    requires forall l :: l in pending ==> Pair(l) != (s, p)
    ensures Bag(pending)[(s, p)] == 0
  {
    if pending != [] { BagAbsent(pending[1..], s, p); }
  }

  lemma {:induction false} BagCount(pending: seq<Loaded>, s: nat, p: Bytes)
    requires forall i, j :: 0 <= i < j < |pending| ==> pending[i].seqId != pending[j].seqId
    ensures Bag(pending)[(s, p)] == if exists l :: l in pending && Pair(l) == (s, p) then 1 else 0
  {
    if pending != [] {
      var rest := pending[1..];
      assert pending == [pending[0]] + rest;
      BagCount(rest, s, p);
      if Pair(pending[0]) == (s, p) {
        assert pending[0] in pending;
        BagAbsent(rest, s, p);
      } else if exists l :: l in rest && Pair(l) == (s, p) {
        var l :| l in rest && Pair(l) == (s, p);
        assert l in pending;
      }
    }
  }

  /** What a stored record on a NUL-free topic reads back as. */
  lemma StoredReadsBack(h: History, s: nat, topic: Bytes)
    requires Numbered(DOCUMENTED_SEPARATOR, h, 0) && TopicsNulFree(h) && s in h.state.store.msgs
    ensures 1 <= s <= |h.sent|
    ensures OnTopic(h.state.store.msgs, s, topic) <==> h.sent[s - 1].topic == topic
    ensures PayloadOf(h.state.store.msgs[s]) == h.sent[s - 1].payload
  {
    var m := h.sent[s - 1];
    RecordRoundTrip(DOCUMENTED_SEPARATOR, m.topic, m.payload);
  }

  function Differ(): (nat, nat) -> bool { (a, b) => a != b }

  /** No number is sent twice, and every wanted message is sent. */
  lemma SelectedOnce(visited: seq<Stored>, topic: Bytes, sent: seq<Loaded>)
    requires Along(Differ(), ScannedIds(visited)) && sent == Selected(Decoded(visited), topic, {})
    ensures SendsWanted(visited, topic, {}, sent)
    ensures Along(Differ(), SentIds(sent))
  {
    hide Selected, Decoded;
    SelectedFacts(visited, topic, {}, Differ());
  }

  lemma NoneTwice(sent: seq<Loaded>)
    requires Along(Differ(), SentIds(sent))
    ensures forall i, j :: 0 <= i < j < |sent| ==> sent[i].seqId != sent[j].seqId
  {
    forall i, j | 0 <= i < j < |sent| ensures sent[i].seqId != sent[j].seqId {
      assert Differ()(SentIds(sent)[i], SentIds(sent)[j]);
    }
  }

  /** Which stored messages a snapshot holds, at any counter and any mix of number widths. */
  lemma SnapshotVisits(h: History, visited: seq<Stored>, s: nat)
    requires Numbered(DOCUMENTED_SEPARATOR, h, 0) && Gapless(h)
    requires IsScan(visited, h.state.store.msgs, 0, MAX_STORED_MESSAGES)
    ensures var msgs := h.state.store.msgs;
            IsVisited(visited, msgs, s) <==> s in msgs && Replayed(h.state.current, msgs.Keys, s)
  {
    hide IsScan;
    var msgs := h.state.store.msgs;
    if h.state.current <= MAX_STORED_MESSAGES {
      ScanFromZero(visited, msgs, MAX_STORED_MESSAGES);
    } else if MAX_STORED_MESSAGES + 1 in msgs {
      SnapshotAboveLimit(visited, msgs, s);
    } else {
      assert s in msgs ==> s > MAX_STORED_MESSAGES;
      ScanVisitsIff(visited, msgs, 0, MAX_STORED_MESSAGES, s);
    }
  }

  /** The replay list holds exactly once each earlier message on the topic that the snapshot holds. */
  lemma SnapshotBag(h: History, topic: Bytes, visited: seq<Stored>, s: nat, p: Bytes)
    requires Numbered(DOCUMENTED_SEPARATOR, h, 0) && Retained(h) && Gapless(h) && TopicsNulFree(h)
    requires IsScan(visited, h.state.store.msgs, 0, MAX_STORED_MESSAGES)
    ensures Bag(Selected(Decoded(visited), topic, {}))[(s, p)] ==
            if IsMessage(h, topic, s, p) && Replayed(h.state.current, h.state.store.msgs.Keys, s) then 1 else 0
  {
    hide Bag, ParseRecord, IsScan, Gapless;
    var pending := Selected(Decoded(visited), topic, {});
    var msgs := h.state.store.msgs;
    ScanVisitsOnce(visited, msgs, 0, MAX_STORED_MESSAGES);
    SnapshotVisits(h, visited, s);
    assert Along(Differ(), ScannedIds(visited));
    SelectedOnce(visited, topic, pending);
    NoneTwice(pending);
    BagCount(pending, s, p);
    if IsMessage(h, topic, s, p) && Replayed(h.state.current, msgs.Keys, s) {
      assert h.sent[s - 1].seqId == s && s in msgs;
      StoredReadsBack(h, s, topic);
      assert IsVisited(visited, msgs, s);
      var e := Stored(s, msgs[s]);
      assert Wanted(e, topic, {}) && AsLoaded(e, topic) in pending;
      assert Pair(AsLoaded(e, topic)) == (s, p);
    } else if exists l :: l in pending && Pair(l) == (s, p) {
      var l :| l in pending && Pair(l) == (s, p);
      var e := SelectedFrom(visited, topic, {}, l);
      ScanEntry(visited, msgs, 0, MAX_STORED_MESSAGES, e);
      assert IsVisited(visited, msgs, s);
      StoredReadsBack(h, s, topic);
    }
  }

  lemma ScanEntry(visited: seq<Stored>, msgs: map<nat, Bytes>, from: nat, to: nat, e: Stored)
    requires IsScan(visited, msgs, from, to) && e in visited
    ensures e.seqId in msgs && e.record == msgs[e.seqId]
  {
  }

  lemma SnapshotAccounted(d: Scene, d': Scene, topic: Bytes, visited: seq<Stored>)
    requires Numbered(DOCUMENTED_SEPARATOR, d.h, 0) && Retained(d.h) && Gapless(d.h) && TopicsNulFree(d.h)
    requires IsScan(visited, d.h.state.store.msgs, 0, MAX_STORED_MESSAGES)
    requires Accounted(d, topic) && d.phase.Live? && d.pending == []
    requires d'.h == d.h && d'.got == d.got && d'.pending == Selected(Decoded(visited), topic, {})
    requires d'.phase == Replaying(d.phase.reg, d.h.state.current, d.h.state.store.msgs.Keys)
    ensures Accounted(d', topic)
  {
    hide Numbered, Retained, Gapless, Selected, Decoded, IsScan, Replayed, IsMessage;
    assert d.got + Bag(d.pending) == d.got;
    hide Bag;
    forall s: nat, p
      ensures (d'.got + Bag(d'.pending))[(s, p)] == if IsMessage(d'.h, topic, s, p) then Owed(d'.phase, s) else 0
    {
      assert d.got[(s, p)] == if IsMessage(d.h, topic, s, p) then Owed(d.phase, s) else 0;
      SnapshotBag(d.h, topic, visited, s, p);
    }
  }

  lemma SnapshotMove(d: Scene, x: Session, topic: Bytes, visited: seq<Stored>)
    requires Consistent(d, x, topic) && Possible(d, x, DoSnapshot(visited))
    ensures Consistent(Play(d, x, topic, DoSnapshot(visited)), x, topic)
  {
    hide Numbered, Retained, Gapless, Selected, Decoded, IsScan, Accounted, IndexFits;
    var d' := Play(d, x, topic, DoSnapshot(visited));
    StoredUpToCounter(d.h);
    SnapshotAccounted(d, d', topic, visited);
    IndexFitsSame(d, d', x, topic);
  }

  lemma StoredUpToCounter(h: History)
    requires Numbered(DOCUMENTED_SEPARATOR, h, 0)
    ensures forall s :: s in h.state.store.msgs.Keys ==> s <= h.state.current
  {
  }

  lemma MessagesEndAtCounter(h: History)
    requires Numbered(DOCUMENTED_SEPARATOR, h, 0)
    ensures |h.sent| == h.state.current
  {
  }

  // ----- Every move -----

  lemma RegisterMove(d: Scene, x: Session, topic: Bytes)
    requires Consistent(d, x, topic) && d.phase.Outside?
    ensures Consistent(Play(d, x, topic, DoRegister), x, topic)
  {
    MessagesEndAtCounter(d.h);
    hide Numbered, Retained, Gapless, Bag;
    var d' := Play(d, x, topic, DoRegister);
    forall t ensures x in Subscribers(d'.index, t) <==> t == topic {
      assert x !in Subscribers(d.index, t);
    }
    forall s: nat, p
      ensures (d'.got + Bag(d'.pending))[(s, p)] == if IsMessage(d'.h, topic, s, p) then Owed(d'.phase, s) else 0
    {
      assert (d.got + Bag(d.pending))[(s, p)] == if IsMessage(d.h, topic, s, p) then Owed(d.phase, s) else 0;
    }
  }

  lemma ReplaySendMove(d: Scene, x: Session, topic: Bytes)
    requires Consistent(d, x, topic) && d.pending != []
    ensures Consistent(Play(d, x, topic, DoReplaySend), x, topic)
  {
    hide Numbered, Retained, Gapless;
    var d' := Play(d, x, topic, DoReplaySend);
    assert d'.got + Bag(d'.pending) == d.got + Bag(d.pending);
  }

  lemma OtherMove(d: Scene, x: Session, topic: Bytes, change: Change)
    requires Consistent(d, x, topic) && change.x != x
    ensures Consistent(Play(d, x, topic, DoOther(change)), x, topic)
  {
    hide Numbered, Retained, Gapless, Bag, Changed, Subscribers;
    forall t ensures x in Subscribers(Changed(d.index, change), t) <==> x in Subscribers(d.index, t) {
      ChangedSubscribers(d.index, change, x, t);
    }
  }

  lemma AckMove(d: Scene, x: Session, topic: Bytes, ev: Event)
    requires Consistent(d, x, topic) && (ev.Ack? || ev.Register?) && Commits(ev) && Allowed(d.h, ev)
    ensures Consistent(Play(d, x, topic, DoAck(ev)), x, topic)
  {
    BrokerMove(d.h, ev);
    hide Numbered, Retained, Gapless, Bag;
  }

  lemma MoveKeepsConsistent(d: Scene, x: Session, topic: Bytes, m: Move)
    requires Consistent(d, x, topic) && topic != HASH && Possible(d, x, m)
    ensures Consistent(Play(d, x, topic, m), x, topic)
  {
    hide Consistent, Play;
    match m
    case DoPublish(t, payload) => PublishMove(d, x, topic, t, payload);
    case DoRegister => RegisterMove(d, x, topic);
    case DoSnapshot(visited) => SnapshotMove(d, x, topic, visited);
    case DoReplaySend => ReplaySendMove(d, x, topic);
    case DoOther(change) => OtherMove(d, x, topic, change);
    case DoAck(ev) => AckMove(d, x, topic, ev);
  }

  lemma {:induction false} RunsKeepConsistent(d: Scene, x: Session, topic: Bytes, ms: seq<Move>)
    requires Consistent(d, x, topic) && topic != HASH && PossibleRun(d, x, topic, ms)
    ensures Consistent(PlayAll(d, x, topic, ms), x, topic)
    decreases |ms|
  {
    hide Consistent, Play, Possible;
    if ms != [] {
      var n := |ms| - 1;
      RunsKeepConsistent(d, x, topic, ms[..n]);
      MoveKeepsConsistent(PlayAll(d, x, topic, ms[..n]), x, topic, ms[n]);
    }
  }

  /**
    * In every interleaving, once replay has drained: a message on the topic was sent once if
    * the snapshot holds it, plus once if it came after registration, and nothing else was
    * sent.  The snapshot holds everything if it was taken at a counter of at most 100000,
    * and otherwise only the powers of ten among the stored numbers.
    */
  lemma EveryCopyIsOwed(d: Scene, x: Session, topic: Bytes, ms: seq<Move>)
    requires Consistent(d, x, topic) && d.phase.Outside? && topic != HASH && PossibleRun(d, x, topic, ms)
    requires PlayAll(d, x, topic, ms).phase.Replaying? && PlayAll(d, x, topic, ms).pending == []
    ensures var r := PlayAll(d, x, topic, ms);
            forall s: nat, p ::
              r.got[(s, p)] ==
                if !IsMessage(r.h, topic, s, p) then 0
                else (if Replayed(r.phase.snap, r.phase.kept, s) then 1 else 0) + (if s > r.phase.reg then 1 else 0)
  {
    RunsKeepConsistent(d, x, topic, ms);
    var r := PlayAll(d, x, topic, ms);
    hide Numbered, Retained, Gapless, PlayAll, Replayed;
    assert r.got + Bag(r.pending) == r.got;
    forall s: nat, p
      ensures r.got[(s, p)] ==
                if !IsMessage(r.h, topic, s, p) then 0
                else (if Replayed(r.phase.snap, r.phase.kept, s) then 1 else 0) + (if s > r.phase.reg then 1 else 0)
    {
      assert (r.got + Bag(r.pending))[(s, p)] == if IsMessage(r.h, topic, s, p) then Owed(r.phase, s) else 0;
    }
  }

  /** Every message on the topic has arrived. */
  ghost predicate AllArrived(r: Scene, topic: Bytes) {
    forall s: nat, p :: IsMessage(r.h, topic, s, p) ==> r.got[(s, p)] >= 1
  }

  /**
    * So no message is missing if and only if the snapshot was taken at a counter of at most
    * 100000 or every message before registration on the topic is a stored power of ten; and
    * in the first case those before registration and those after the snapshot were sent
    * exactly once, those between exactly twice.
    */
  lemma EveryMessageArrivesIff(d: Scene, x: Session, topic: Bytes, ms: seq<Move>)
    requires Consistent(d, x, topic) && d.phase.Outside? && topic != HASH && PossibleRun(d, x, topic, ms)
    requires PlayAll(d, x, topic, ms).phase.Replaying? && PlayAll(d, x, topic, ms).pending == []
    ensures var r := PlayAll(d, x, topic, ms);
            && (AllArrived(r, topic) <==>
                  || r.phase.snap <= MAX_STORED_MESSAGES
                  || forall s: nat, p :: IsMessage(r.h, topic, s, p) && s <= r.phase.reg ==>
                       s in r.phase.kept && s in POWERS)
            && (r.phase.snap <= MAX_STORED_MESSAGES ==>
                  forall s: nat, p :: IsMessage(r.h, topic, s, p) ==>
                    r.got[(s, p)] == if r.phase.reg < s <= r.phase.snap then 2 else 1)
  {
    EveryCopyIsOwed(d, x, topic, ms);
    RunsKeepConsistent(d, x, topic, ms);
    var r := PlayAll(d, x, topic, ms);
    hide Numbered, Retained, Gapless, PlayAll, Accounted, IndexFits;
    assert r.phase.reg <= r.phase.snap;
    if r.phase.snap > MAX_STORED_MESSAGES && AllArrived(r, topic) {
      forall s: nat, p | IsMessage(r.h, topic, s, p) && s <= r.phase.reg
        ensures s in r.phase.kept && s in POWERS
      {
        assert r.got[(s, p)] >= 1;
      }
    }
  }
}
