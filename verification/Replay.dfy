/**
  * What replay sends: filtering the loaded range by topic and by ACK, against the
  * history of the run.
  */
module Replay {
  import opened ByteStrings
  import Decimal
  import opened KeySpace
  import opened AckWindow
  import opened LmdbStorage
  import opened RangeScan
  import opened BrokerModel
  import opened Numbering
  import opened AckDelivery

  predicate OnTopic(msgs: map<nat, Bytes>, s: nat, topic: Bytes) {
    s in msgs && Splits(msgs[s], topic)
  }

  /** A record that reads back with this topic. */
  predicate Splits(record: Bytes, topic: Bytes) {
    ParseRecord(record).Some? && ParseRecord(record).value.topic == topic
  }

  function PayloadOf(record: Bytes): Bytes {
    if ParseRecord(record).Some? then ParseRecord(record).value.payload else []
  }

  /** Of the loaded messages, those on the topic and not in `skip`, in loading order. */
  function Selected(loaded: seq<Loaded>, topic: Bytes, skip: set<nat>): seq<Loaded> {
    if loaded == [] then []
    else
      var e := loaded[|loaded| - 1];
      Selected(loaded[..|loaded| - 1], topic, skip)
        + if e.topic == topic && e.seqId !in skip then [e] else []
  }

  predicate Wanted(e: Stored, topic: Bytes, skip: set<nat>) {
    Splits(e.record, topic) && e.seqId !in skip
  }

  function AsLoaded(e: Stored, topic: Bytes): Loaded {
    Loaded(e.seqId, topic, PayloadOf(e.record))
  }

  lemma SelectedSnoc(visited: seq<Stored>, e: Stored, topic: Bytes, skip: set<nat>)
    ensures Selected(Decoded(visited + [e]), topic, skip)
            == Selected(Decoded(visited), topic, skip) + if Wanted(e, topic, skip) then [AsLoaded(e, topic)] else []
  {
    DecodedSnoc(visited, e);
    var d, one := Decoded(visited), DecodedOne(e);
    if one == [] {
      assert d + one == d;
    } else {
      assert (d + one)[..|d|] == d;
    }
  }

  ghost predicate Along(rel: (nat, nat) -> bool, ids: seq<nat>) {
    forall i, j :: 0 <= i < j < |ids| ==> rel(ids[i], ids[j])
  }

  function ScannedIds(visited: seq<Stored>): (ids: seq<nat>)
    ensures |ids| == |visited| && forall i :: 0 <= i < |ids| ==> ids[i] == visited[i].seqId
  {
    seq(|visited|, i requires 0 <= i < |visited| => visited[i].seqId)
  }

  function SentIds(sent: seq<Loaded>): (ids: seq<nat>)
    ensures |ids| == |sent| && forall i :: 0 <= i < |ids| ==> ids[i] == sent[i].seqId
  {
    seq(|sent|, i requires 0 <= i < |sent| => sent[i].seqId)
  }

  /** Every wanted message of the scan is among those sent. */
  ghost predicate SendsWanted(visited: seq<Stored>, topic: Bytes, skip: set<nat>, sent: seq<Loaded>) {
    forall e :: e in visited && Wanted(e, topic, skip) ==> AsLoaded(e, topic) in sent
  }

  /** Replay sends exactly the wanted messages of the scan, keeping any relation that held along it. */
  lemma {:induction false} SelectedFacts(visited: seq<Stored>, topic: Bytes, skip: set<nat>, rel: (nat, nat) -> bool)
    requires Along(rel, ScannedIds(visited))
    ensures Along(rel, SentIds(Selected(Decoded(visited), topic, skip)))
    ensures SendsWanted(visited, topic, skip, Selected(Decoded(visited), topic, skip))
    decreases |visited|
  {
    hide Wanted, AsLoaded, Decoded, Selected, ScannedIds, SentIds;
    if visited == [] {
      SelectedNone(topic, skip);
    } else {
      var n := |visited| - 1;
      var init, e := visited[..n], visited[n];
      var ids := ScannedIds(visited);
      assert ScannedIds(init) == ids[..n];
      SelectedFacts(init, topic, skip, rel);
      SelectedSnoc(init, e, topic, skip);
      assert visited == init + [e];
      var sent := Selected(Decoded(init), topic, skip);
      forall i | 0 <= i < |sent| ensures rel(sent[i].seqId, e.seqId) {
        var f := SelectedFrom(init, topic, skip, sent[i]);
        var k :| 0 <= k < n && init[k] == f;
        AsLoadedKeepsNumber(f, topic);
        assert ids[k] == f.seqId && ids[n] == e.seqId;
      }
      AsLoadedKeepsNumber(e, topic);
      var all := SentIds(Selected(Decoded(visited), topic, skip));
      forall i, j | 0 <= i < j < |all| ensures rel(all[i], all[j]) {
        if j < |sent| { assert rel(SentIds(sent)[i], SentIds(sent)[j]); }
      }
    }
  }

  /** Every message sent comes from a wanted entry of the scan. */
  lemma {:induction false} SelectedFrom(visited: seq<Stored>, topic: Bytes, skip: set<nat>, l: Loaded) returns (e: Stored)
    requires l in Selected(Decoded(visited), topic, skip)
    ensures e in visited && Wanted(e, topic, skip) && l == AsLoaded(e, topic)
    decreases |visited|
  {
    hide Wanted, AsLoaded, Decoded, Selected;
    if visited == [] {
      SelectedNone(topic, skip);
      assert false;
    } else {
      var n := |visited| - 1;
      SelectedSnoc(visited[..n], visited[n], topic, skip);
      assert visited == visited[..n] + [visited[n]];
      if l in Selected(Decoded(visited[..n]), topic, skip) {
        e := SelectedFrom(visited[..n], topic, skip, l);
      } else {
        e := visited[n];
      }
    }
  }

  lemma SelectedNone(topic: Bytes, skip: set<nat>)
    ensures Selected(Decoded([]), topic, skip) == []
  {
  }

  lemma AsLoadedKeepsNumber(e: Stored, topic: Bytes)
    ensures AsLoaded(e, topic).seqId == e.seqId
  {
  }

  // ----- A window that changes while it is asked -----

  /** Of the loaded messages, those on the topic that were not in the window when it was asked about them. */
  function SelectedAsking(loaded: seq<Loaded>, topic: Bytes, asked: seq<set<nat>>): seq<Loaded>
    requires |loaded| == |asked|
  {
    if loaded == [] then []
    else
      var n := |loaded| - 1;
      SelectedAsking(loaded[..n], topic, asked[..n])
        + if loaded[n].topic == topic && loaded[n].seqId !in asked[n] then [loaded[n]] else []
  }

  lemma AskingSnoc(loaded: seq<Loaded>, l: Loaded, topic: Bytes, asked: seq<set<nat>>, window: set<nat>)
    requires |loaded| == |asked|
    ensures SelectedAsking(loaded + [l], topic, asked + [window])
            == SelectedAsking(loaded, topic, asked) + if l.topic == topic && l.seqId !in window then [l] else []
  {
    assert (loaded + [l])[..|loaded|] == loaded && (asked + [window])[..|asked|] == asked;
  }

  /** The numbers found in the window when it was asked about them. */
  function Found(loaded: seq<Loaded>, asked: seq<set<nat>>): set<nat>
    requires |loaded| == |asked|
  {
    set i | 0 <= i < |loaded| && loaded[i].seqId in asked[i] :: loaded[i].seqId
  }

  /** However the window changes in between, the loop passes over one set of numbers. */
  lemma {:induction false} AskingPassesOver(loaded: seq<Loaded>, topic: Bytes, asked: seq<set<nat>>, skip: set<nat>)
    requires |loaded| == |asked|
    requires forall i :: 0 <= i < |loaded| ==> (loaded[i].seqId in skip <==> loaded[i].seqId in asked[i])
    ensures SelectedAsking(loaded, topic, asked) == Selected(loaded, topic, skip)
    decreases |loaded|
  {
    if loaded != [] {
      AskingPassesOver(loaded[..|loaded| - 1], topic, asked[..|loaded| - 1], skip);
    }
  }

  lemma {:induction false} DecodedOnce(visited: seq<Stored>)
    requires forall i, j :: 0 <= i < j < |visited| ==> visited[i].seqId != visited[j].seqId
    ensures var loaded := Decoded(visited);
            && (forall l :: l in loaded ==> exists e :: e in visited && e.seqId == l.seqId)
            && forall i, j :: 0 <= i < j < |loaded| ==> loaded[i].seqId != loaded[j].seqId
    decreases |visited|
  {
    hide ParseRecord;
    if visited != [] {
      var n := |visited| - 1;
      DecodedOnce(visited[..n]);
      assert visited == visited[..n] + [visited[n]];
    }
  }

  /** Off a represented store, each message is asked about once, so those found are the set passed over. */
  lemma AskingIsOneReplay(db: map<Bytes, Bytes>, a: Store, from: nat, to: nat, topic: Bytes, asked: seq<set<nat>>)
    requires Represents(db, a) && Visited(db, from, to).Some? && |Decoded(Visited(db, from, to).value)| == |asked|
    ensures var loaded := Decoded(Visited(db, from, to).value);
            SelectedAsking(loaded, topic, asked) == Sends(db, from, to, topic, Found(loaded, asked))
  {
    hide Represents, Visited, Decoded, Selected, SelectedAsking, DecLess;
    VisitedIsScan(db, a, from, to);
    var visited := Visited(db, from, to).value;
    ScanVisitsOnce(visited, a.msgs, from, to);
    DecodedOnce(visited);
    AskingPassesOver(Decoded(visited), topic, asked, Found(Decoded(visited), asked));
  }

  // ----- What a replay sends -----

  /** The messages sent by a replay that loads `from` to `to` off the cursor and passes over `skip`. */
  ghost function Sends(db: map<Bytes, Bytes>, from: nat, to: nat, topic: Bytes, skip: set<nat>): seq<Loaded> {
    match Visited(db, from, to)
    case None => []
    case Some(visited) => Selected(Decoded(visited), topic, skip)
  }

  function MessageAt(msgs: map<nat, Bytes>, s: nat, topic: Bytes): Loaded
    requires s in msgs
  {
    Loaded(s, topic, PayloadOf(msgs[s]))
  }

  /**
    * On every store and for every range: everything sent is a stored message on the topic,
    * in decimal order and once each, and a stored message on the topic is sent if and only
    * if it is not passed over and the scan reaches it.
    */
  lemma ReplaySendsIff(db: map<Bytes, Bytes>, a: Store, from: nat, to: nat, topic: Bytes, skip: set<nat>)
    requires Represents(db, a)
    ensures Visited(db, from, to).Some?
    ensures var sent := Sends(db, from, to, topic, skip);
            && (forall l :: l in sent ==> OnTopic(a.msgs, l.seqId, topic) && l == MessageAt(a.msgs, l.seqId, topic))
            && (forall i, j :: 0 <= i < j < |sent| ==> DecLess(sent[i].seqId, sent[j].seqId))
            && (forall s :: OnTopic(a.msgs, s, topic) ==>
                  (MessageAt(a.msgs, s, topic) in sent <==> s !in skip && InScan(a.msgs, from, to, s)))
  {
    hide Represents, Visited, Selected, Decoded, InScan, DecLess, Splits, PayloadOf;
    VisitedIsScan(db, a, from, to);
    var visited := Visited(db, from, to).value;
    var sent := Sends(db, from, to, topic, skip);
    assert Along(DecLess, ScannedIds(visited));
    SelectedFacts(visited, topic, skip, DecLess);
    forall i, j | 0 <= i < j < |sent| ensures DecLess(sent[i].seqId, sent[j].seqId) {
      assert DecLess(SentIds(sent)[i], SentIds(sent)[j]);
    }
    forall l | l in sent ensures OnTopic(a.msgs, l.seqId, topic) && l == MessageAt(a.msgs, l.seqId, topic) {
      var e := SelectedFrom(visited, topic, skip, l);
    }
    forall s | OnTopic(a.msgs, s, topic)
      ensures MessageAt(a.msgs, s, topic) in sent <==> s !in skip && InScan(a.msgs, from, to, s)
    {
      ScanVisitsIff(visited, a.msgs, from, to, s);
      if MessageAt(a.msgs, s, topic) in sent {
        var e := SelectedFrom(visited, topic, skip, MessageAt(a.msgs, s, topic));
        assert IsVisited(visited, a.msgs, s);
      } else if IsVisited(visited, a.msgs, s) {
        assert Stored(s, a.msgs[s]) in visited;
        assert AsLoaded(Stored(s, a.msgs[s]), topic) == MessageAt(a.msgs, s, topic);
        assert !Wanted(Stored(s, a.msgs[s]), topic, skip);
      }
    }
  }

  // ----- Client replay -----

  /** The range client replay asks for, in 64-bit arithmetic. */
  function ReplayFrom(last: nat): nat { Add64(last, 1) }

  function ReplayTo(last: nat): nat { Add64(last, MAX_STORED_MESSAGES) }

  /** What client replay sends in a state whose store is `db`. */
  ghost function ClientSends(db: map<Bytes, Bytes>, st: State, client: Bytes, topic: Bytes): seq<Loaded> {
    Sends(db, ReplayFrom(LastAck(st, client)), ReplayTo(LastAck(st, client)), topic, WindowOf(st, client).lookup)
  }

  /** In ascending order and once each, exactly the messages on the topic numbered above `lo` up to `hi`. */
  ghost predicate SendsExactly(sent: seq<Loaded>, msgs: map<nat, Bytes>, topic: Bytes, lo: nat, hi: nat) {
    && (forall i, j :: 0 <= i < j < |sent| ==> sent[i].seqId < sent[j].seqId)
    && (forall l :: l in sent ==>
          OnTopic(msgs, l.seqId, topic) && lo < l.seqId <= hi && l == MessageAt(msgs, l.seqId, topic))
    && (forall s :: lo < s <= hi && OnTopic(msgs, s, topic) ==> MessageAt(msgs, s, topic) in sent)
  }

  /** On the topic, the scan reaches exactly the range, nothing in it is passed over, and decimal order is numeric. */
  ghost predicate ReplayAgrees(msgs: map<nat, Bytes>, topic: Bytes, from: nat, to: nat, skip: set<nat>, lo: nat, hi: nat) {
    && (forall s: nat :: OnTopic(msgs, s, topic) ==> (lo < s <= hi <==> s !in skip && InScan(msgs, from, to, s)))
    && (forall s: nat, t: nat :: OnTopic(msgs, s, topic) && OnTopic(msgs, t, topic) && lo < s < t <= hi ==> DecLess(s, t))
  }

  lemma SendsExactlyIff(db: map<Bytes, Bytes>, a: Store, from: nat, to: nat, topic: Bytes, skip: set<nat>, lo: nat, hi: nat)
    requires Represents(db, a)
    ensures SendsExactly(Sends(db, from, to, topic, skip), a.msgs, topic, lo, hi)
            <==> ReplayAgrees(a.msgs, topic, from, to, skip, lo, hi)
  {
    hide Represents, Sends, InScan, DecLess, Splits, PayloadOf;
    var sent := Sends(db, from, to, topic, skip);
    ReplaySendsIff(db, a, from, to, topic, skip);
    if ReplayAgrees(a.msgs, topic, from, to, skip, lo, hi) {
      forall l | l in sent ensures lo < l.seqId <= hi {
        assert MessageAt(a.msgs, l.seqId, topic) in sent;
      }
      forall i, j | 0 <= i < j < |sent| ensures sent[i].seqId < sent[j].seqId {
        assert sent[i] in sent && sent[j] in sent;
        DecLessAsymmetric(sent[i].seqId, sent[j].seqId);
      }
    }
    if SendsExactly(sent, a.msgs, topic, lo, hi) {
      forall s: nat | OnTopic(a.msgs, s, topic) ensures lo < s <= hi <==> s !in skip && InScan(a.msgs, from, to, s) {
        assert MessageAt(a.msgs, s, topic).seqId == s;
      }
      forall s: nat, t: nat | OnTopic(a.msgs, s, topic) && OnTopic(a.msgs, t, topic) && lo < s < t <= hi ensures DecLess(s, t) {
        var i :| 0 <= i < |sent| && sent[i] == MessageAt(a.msgs, s, topic);
        var j :| 0 <= j < |sent| && sent[j] == MessageAt(a.msgs, t, topic);
        assert sent[i].seqId == s && sent[j].seqId == t;
        assert i < j;
      }
    }
  }

  /**
    * In every state: client replay sends, ascending and once each, exactly the stored
    * messages on the topic after the last ACK up to 100000 further, if and only if the
    * scan it makes agrees with that range.
    */
  lemma ClientReplayExactIff(db: map<Bytes, Bytes>, st: State, client: Bytes, topic: Bytes)
    requires Represents(db, st.store)
    ensures var last := LastAck(st, client);
            SendsExactly(ClientSends(db, st, client, topic), st.store.msgs, topic, last, last + MAX_STORED_MESSAGES)
            <==> ReplayAgrees(st.store.msgs, topic, ReplayFrom(last), ReplayTo(last), WindowOf(st, client).lookup,
                              last, last + MAX_STORED_MESSAGES)
  {
    var last := LastAck(st, client);
    SendsExactlyIff(db, st.store, ReplayFrom(last), ReplayTo(last), topic, WindowOf(st, client).lookup,
                    last, last + MAX_STORED_MESSAGES);
  }

  /** It does when decimal order agrees with numeric order on what is stored and the range does not wrap. */
  lemma AgreeingOrderSuffices(st: State, client: Bytes, topic: Bytes)
    requires CacheAgrees(st) && LastAck(st, client) + MAX_STORED_MESSAGES < U64
    requires OrderAgrees(st.store.msgs, LastAck(st, client) + 1)
    ensures var last := LastAck(st, client);
            ReplayAgrees(st.store.msgs, topic, ReplayFrom(last), ReplayTo(last), WindowOf(st, client).lookup,
                         last, last + MAX_STORED_MESSAGES)
  {
    hide DecLess, Splits;
    assert Valid(WindowOf(st, client));
  }

  /**
    * When nothing is stored above the range, in particular when the counter is within
    * 100000 of the last ACK, the scan reaches exactly what does not sort before its start.
    */
  lemma UncutScan(msgs: map<nat, Bytes>, from: nat, to: nat, s: nat)
    requires s in msgs && forall t :: t in msgs ==> t <= to
    ensures InScan(msgs, from, to, s) <==> !DecLess(s, from)
  {
    hide DecLess;
  }

  // ----- Acknowledged messages sent again -----

  lemma {:induction false} RunsOnlyAddAbove(sep: Bytes, h: History, base: nat, evs: seq<Event>)
    requires Numbered(sep, h, base) && CommittedRun(sep, h, evs)
    ensures var r := Run(sep, h, evs);
            && h.state.current <= r.state.current
            && forall s :: s in r.state.store.msgs ==> s in h.state.store.msgs || s > h.state.current
    decreases |evs|
  {
    if evs != [] {
      var n := |evs| - 1;
      CommittedPrefix(sep, h, evs);
      RunsOnlyAddAbove(sep, h, base, evs[..n]);
      CommittedRunsAreNumbered(sep, h, base, evs[..n]);
      NextAddsAbove(sep, Run(sep, h, evs[..n]), base, evs[n]);
    }
  }

  lemma NextAddsAbove(sep: Bytes, h: History, base: nat, ev: Event)
    requires Numbered(sep, h, base) && Allowed(h, ev) && Commits(ev)
    ensures var r := Next(sep, h, ev);
            && h.state.current <= r.state.current
            && forall s :: s in r.state.store.msgs ==> s in h.state.store.msgs || s > h.state.current
  {
  }

  lemma LaterStoredAckIsBelow(h: History, client: Bytes, s: nat, later: map<nat, Bytes>)
    requires AcksKept(h) && client in h.registered && (client, s) in h.acked && s in later
    requires forall u :: u in later ==> u in h.state.store.msgs || u > h.state.current
    ensures s <= LastAck(h.state, client)
  {
    assert AckKept(h, client, s);
  }

  /** Nothing in `sent` had been ACKed by the client. */
  ghost predicate ResendsNothing(sent: seq<Loaded>, h: History, client: Bytes) {
    forall l :: l in sent ==> (client, l.seqId) !in h.acked
  }

  /**
    * Replay reads the last ACK at one moment and the messages at a later one, with any
    * committed steps in between, restarts included.  Something ACKed at the first moment is
    * sent again if and only if a message on the topic up to the last ACK, ACKed and still
    * stored, is not passed over and is reached by the scan.
    */
  lemma ReplayResendsIff(sep: Bytes, h: History, base: nat, evs: seq<Event>, client: Bytes,
                         db: map<Bytes, Bytes>, to: nat, topic: Bytes, skip: set<nat>)
    requires Numbered(sep, h, base) && AcksKept(h) && client in h.registered && CommittedRun(sep, h, evs)
    requires Represents(db, Run(sep, h, evs).state.store)
    ensures var last := LastAck(h.state, client);
            var later := Run(sep, h, evs).state.store.msgs;
            !ResendsNothing(Sends(db, ReplayFrom(last), to, topic, skip), h, client) <==>
            exists s :: s <= last && (client, s) in h.acked && OnTopic(later, s, topic)
                        && s !in skip && InScan(later, ReplayFrom(last), to, s)
  {
    hide Represents, Sends, InScan, AcksKept, Numbered, CommittedRun, Splits, PayloadOf;
    var last := LastAck(h.state, client);
    var later := Run(sep, h, evs).state.store;
    var sent := Sends(db, ReplayFrom(last), to, topic, skip);
    ReplaySendsIff(db, later, ReplayFrom(last), to, topic, skip);
    RunsOnlyAddAbove(sep, h, base, evs);
    if !ResendsNothing(sent, h, client) {
      var l :| l in sent && (client, l.seqId) in h.acked;
      LaterStoredAckIsBelow(h, client, l.seqId, later.msgs);
      assert MessageAt(later.msgs, l.seqId, topic) in sent;
    }
    if s: nat :| s <= last && (client, s) in h.acked && OnTopic(later.msgs, s, topic)
                 && s !in skip && InScan(later.msgs, ReplayFrom(last), to, s)
    {
      var l := MessageAt(later.msgs, s, topic);
      assert l in sent && l.seqId == s;
    }
  }

  /** So nothing is, when decimal order agrees with numeric order and the last ACK is not the last number. */
  lemma AgreeingOrderNeverResends(sep: Bytes, h: History, base: nat, evs: seq<Event>, client: Bytes,
                                  db: map<Bytes, Bytes>, to: nat, topic: Bytes, skip: set<nat>)
    requires Numbered(sep, h, base) && AcksKept(h) && client in h.registered && CommittedRun(sep, h, evs)
    requires LastAck(h.state, client) + 1 < U64
    requires var later := Run(sep, h, evs).state.store;
             Represents(db, later) && OrderAgrees(later.msgs, LastAck(h.state, client) + 1)
    ensures ResendsNothing(Sends(db, ReplayFrom(LastAck(h.state, client)), to, topic, skip), h, client)
  {
    hide Represents, Sends, AcksKept, Numbered, CommittedRun, Splits, DecLess, ResendsNothing;
    ReplayResendsIff(sep, h, base, evs, client, db, to, topic, skip);
  }

  /**
    * An ACK of 2^64 - 1 wraps the range to zero: a message on the topic is then sent if and
    * only if the window does not hold it, it is below 100000 and no stored number from 100000
    * on cuts the scan before it.
    */
  lemma TopAckResendsIff(client: Bytes, topic: Bytes, db: map<Bytes, Bytes>, st: State)
    requires Represents(db, st.store) && LastAck(st, client) == U64 - 1
    ensures forall s: nat :: OnTopic(st.store.msgs, s, topic) ==>
              (MessageAt(st.store.msgs, s, topic) in ClientSends(db, st, client, topic) <==>
               && !IsAcked(st, client, s) && s < MAX_STORED_MESSAGES
               && !CutBefore(st.store.msgs, 0, MAX_STORED_MESSAGES - 1, s))
  {
    hide Represents, Sends, DecLess, Splits, PayloadOf, CutBefore;
    assert ReplayFrom(U64 - 1) == 0 && ReplayTo(U64 - 1) == MAX_STORED_MESSAGES - 1;
    ReplaySendsIff(db, st.store, 0, MAX_STORED_MESSAGES - 1, topic, WindowOf(st, client).lookup);
    forall s: nat ensures !DecLess(s, 0) { NothingBeforeZero(s); }
  }

  lemma NothingBeforeZero(s: nat)
    ensures !DecLess(s, 0)
  {
    Decimal.ZeroIsLeast(s);
  }

  // ----- A subscription with a client id -----

  /** What it sends: the replay of everything on the topic, and then the client's. */
  ghost function SubscribeSends(db: map<Bytes, Bytes>, db': map<Bytes, Bytes>, st: State, client: Bytes, topic: Bytes): seq<Loaded> {
    Sends(db, 0, MAX_STORED_MESSAGES, topic, {}) + ClientSends(db', st, client, topic)
  }

  lemma {:induction false} DistinctCount(sent: seq<Loaded>, l: Loaded)
    requires forall i, j :: 0 <= i < j < |sent| ==> sent[i].seqId != sent[j].seqId
    ensures multiset(sent)[l] == if l in sent then 1 else 0
  {
    if sent != [] {
      var n := |sent| - 1;
      DistinctCount(sent[..n], l);
      assert sent == sent[..n] + [sent[n]];
    }
  }

  lemma SendsOnce(db: map<Bytes, Bytes>, a: Store, from: nat, to: nat, topic: Bytes, skip: set<nat>, s: nat)
    requires Represents(db, a) && OnTopic(a.msgs, s, topic)
    ensures multiset(Sends(db, from, to, topic, skip))[MessageAt(a.msgs, s, topic)]
            == if s !in skip && InScan(a.msgs, from, to, s) then 1 else 0
  {
    hide Represents, Sends, InScan, DecLess, Splits, PayloadOf;
    var sent := Sends(db, from, to, topic, skip);
    ReplaySendsIff(db, a, from, to, topic, skip);
    forall i, j | 0 <= i < j < |sent| ensures sent[i].seqId != sent[j].seqId {
      DecLessAsymmetric(sent[i].seqId, sent[j].seqId);
    }
    DistinctCount(sent, MessageAt(a.msgs, s, topic));
  }

  /**
    * A message on the topic stored at both moments is sent once if the scan from 0 to 100000
    * reaches it at the first, plus once if at the second the client's window lacks it and the
    * scan after its last ACK reaches it.
    */
  lemma SubscribeCopies(db: map<Bytes, Bytes>, first: Store, db': map<Bytes, Bytes>, st: State, client: Bytes, topic: Bytes)
    requires Represents(db, first) && Represents(db', st.store)
    ensures var last := LastAck(st, client);
            var msgs := st.store.msgs;
            forall s: nat :: OnTopic(first.msgs, s, topic) && s in msgs && msgs[s] == first.msgs[s] ==>
              multiset(SubscribeSends(db, db', st, client, topic))[MessageAt(first.msgs, s, topic)] ==
              (if InScan(first.msgs, 0, MAX_STORED_MESSAGES, s) then 1 else 0)
              + (if !IsAcked(st, client, s) && InScan(msgs, ReplayFrom(last), ReplayTo(last), s) then 1 else 0)
  {
    hide Represents, Sends, InScan, Splits, PayloadOf;
    var last, msgs := LastAck(st, client), st.store.msgs;
    forall s: nat | OnTopic(first.msgs, s, topic) && s in msgs && msgs[s] == first.msgs[s]
      ensures multiset(SubscribeSends(db, db', st, client, topic))[MessageAt(first.msgs, s, topic)] ==
              (if InScan(first.msgs, 0, MAX_STORED_MESSAGES, s) then 1 else 0)
              + (if !IsAcked(st, client, s) && InScan(msgs, ReplayFrom(last), ReplayTo(last), s) then 1 else 0)
    {
      SendsOnce(db, first, 0, MAX_STORED_MESSAGES, topic, {}, s);
      SendsOnce(db', st.store, ReplayFrom(last), ReplayTo(last), topic, WindowOf(st, client).lookup, s);
    }
  }
}
