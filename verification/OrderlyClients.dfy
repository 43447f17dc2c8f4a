/**
  * A client that acknowledges in sequence order misses nothing: replay sends it every
  * stored message on its topic that it has not acknowledged.
  */
module OrderlyClients {
  import opened ByteStrings
  import opened KeySpace
  import opened AckWindow
  import opened RangeScan
  import opened BrokerModel
  import opened Numbering
  import opened Retention
  import opened AckDelivery
  import opened Replay

  /**
    * The discipline: `client` ACKs only published numbers, and only after everything stored
    * on the topic before them; no client id continues `client` with a colon.
    */
  ghost predicate InOrder(h: History, ev: Event, client: Bytes, topic: Bytes) {
    ev.Ack? ==>
      && !(client + [COLON] <= ev.client)
      && (ev.client == client ==>
            && ev.seqId <= h.state.current
            && forall u: nat :: OnTopic(h.state.store.msgs, u, topic) && u < ev.seqId ==> (client, u) in h.acked)
  }

  ghost predicate OrderlyRun(sep: Bytes, h: History, evs: seq<Event>, client: Bytes, topic: Bytes) {
    evs == []
    || (&& OrderlyRun(sep, h, evs[..|evs| - 1], client, topic)
        && InOrder(Run(sep, h, evs[..|evs| - 1]), evs[|evs| - 1], client, topic))
  }

  ghost predicate Orderly(h: History, client: Bytes, topic: Bytes) {
    && (forall c, s :: (c, s) in h.state.store.acks ==> (c, s) in h.acked && !(client + [COLON] <= c))
    && (forall s :: (client, s) in h.acked ==> s <= h.state.current)
    && (forall s, u :: (client, s) in h.acked && OnTopic(h.state.store.msgs, u, topic) && u < s ==> (client, u) in h.acked)
    && (LastAck(h.state, client) == 0 || (client, LastAck(h.state, client)) in h.acked)
  }

  /** A broker started on an empty store meets every assumption made here on starting points. */
  lemma FreshStart(sep: Bytes, client: Bytes, topic: Bytes)
    ensures Numbered(sep, FRESH, 0) && Retained(FRESH) && AcksKept(FRESH) && Orderly(FRESH, client, topic)
  {
  }

  /** A publish adds at most one message on the topic, above everything acknowledged. */
  lemma PublishKeepsOrderly(sep: Bytes, h: History, base: nat, ev: Event, client: Bytes, topic: Bytes)
    requires Numbered(sep, h, base) && Orderly(h, client, topic) && Allowed(h, ev) && Commits(ev) && ev.Publish?
    ensures Orderly(Next(sep, h, ev), client, topic)
  {
    hide Record, Splits;
    var h' := Next(sep, h, ev);
    forall u: nat | OnTopic(h'.state.store.msgs, u, topic) ensures OnTopic(h.state.store.msgs, u, topic) || u > h.state.current {
    }
    forall c, s | (c, s) in h'.state.store.acks ensures (c, s) in h.state.store.acks {
    }
  }

  lemma RegisterKeepsOrderly(sep: Bytes, h: History, ev: Event, client: Bytes, topic: Bytes)
    requires AcksKept(h) && Orderly(h, client, topic) && Allowed(h, ev) && ev.Register?
    ensures Orderly(Next(sep, h, ev), client, topic)
  {
    hide Registered, MaxOf, OnTopic, CacheAgrees;
    RegisterKeepsCache(h.state, ev.client, ev.loaded);
    RegisterLeavesRest(h.state, ev.client, ev.loaded);
    if ev.client == client {
      LoadedAcksExact(h.state.store.acks, client);
      MaxOfSpec(ev.loaded);
      if ev.loaded == [] {
        MaxOfNone();
      } else {
        var i :| 0 <= i < |ev.loaded| && ev.loaded[i] == MaxOf(ev.loaded);
        assert ev.loaded[i] in AcksOf(h.state.store.acks, client);
      }
    }
  }

  lemma AckKeepsOrderly(sep: Bytes, h: History, ev: Event, client: Bytes, topic: Bytes)
    requires Orderly(h, client, topic) && InOrder(h, ev, client, topic) && ev.Ack?
    ensures Orderly(Next(sep, h, ev), client, topic)
  {
    hide OnTopic, Inserted;
    var h' := Next(sep, h, ev);
    forall s, u | (client, s) in h'.acked && OnTopic(h'.state.store.msgs, u, topic) && u < s
      ensures (client, u) in h'.acked
    {
      if (client, s) !in h.acked { assert OnTopic(h.state.store.msgs, u, topic); }
    }
  }

  lemma NextKeepsOrderly(sep: Bytes, h: History, base: nat, ev: Event, client: Bytes, topic: Bytes)
    requires Numbered(sep, h, base) && AcksKept(h) && Orderly(h, client, topic)
    requires Allowed(h, ev) && Commits(ev) && InOrder(h, ev, client, topic)
    ensures Orderly(Next(sep, h, ev), client, topic)
  {
    hide OnTopic;
    match ev
    case Publish(_, _, _) => PublishKeepsOrderly(sep, h, base, ev, client, topic);
    case Ack(_, _, _) => AckKeepsOrderly(sep, h, ev, client, topic);
    case Register(_, _) => RegisterKeepsOrderly(sep, h, ev, client, topic);
    case Restart =>
  }

  lemma {:induction false} OrderlyRunsStayOrderly(sep: Bytes, h: History, base: nat, evs: seq<Event>, client: Bytes, topic: Bytes)
    requires Numbered(sep, h, base) && AcksKept(h) && Orderly(h, client, topic)
    requires CommittedRun(sep, h, evs) && OrderlyRun(sep, h, evs, client, topic)
    ensures Orderly(Run(sep, h, evs), client, topic)
    decreases |evs|
  {
    hide Orderly, Numbered, AcksKept, InOrder;
    if evs != [] {
      var n := |evs| - 1;
      CommittedPrefix(sep, h, evs);
      OrderlyRunsStayOrderly(sep, h, base, evs[..n], client, topic);
      RunsKeepAcks(sep, h, base, evs[..n]);
      NextKeepsOrderly(sep, Run(sep, h, evs[..n]), base, evs[n], client, topic);
    }
  }

  /** The scan reaches what replay should send on the topic, and nothing else the window has forgotten. */
  ghost predicate SortsApart(st: State, client: Bytes, topic: Bytes) {
    var last := LastAck(st, client);
    forall s: nat :: OnTopic(st.store.msgs, s, topic) ==>
      var reached := InScan(st.store.msgs, ReplayFrom(last), ReplayTo(last), s);
      if s > last then reached else IsAcked(st, client, s) || !reached
  }

  /**
    * After any orderly committed run, for a registered client: everything sent is a stored
    * message on the topic, in decimal order and once each; and it is exactly the stored
    * messages on the topic the client has not ACKed if and only if the scan reaches every one
    * after the last ACK, and none up to it that the window has forgotten.
    */
  lemma OrderlyReplayCompleteIff(sep: Bytes, start: History, base: nat, evs: seq<Event>, client: Bytes, topic: Bytes,
                                 db: map<Bytes, Bytes>)
    requires Numbered(sep, start, base) && AcksKept(start) && Orderly(start, client, topic)
    requires CommittedRun(sep, start, evs) && OrderlyRun(sep, start, evs, client, topic)
    requires client in Run(sep, start, evs).registered && Represents(db, Run(sep, start, evs).state.store)
    ensures var h := Run(sep, start, evs);
            var msgs := h.state.store.msgs;
            var sent := ClientSends(db, h.state, client, topic);
            && (forall l :: l in sent ==> OnTopic(msgs, l.seqId, topic) && l == MessageAt(msgs, l.seqId, topic))
            && (forall i, j :: 0 <= i < j < |sent| ==> DecLess(sent[i].seqId, sent[j].seqId))
            && ((forall s: nat :: OnTopic(msgs, s, topic) ==> ((client, s) !in h.acked <==> MessageAt(msgs, s, topic) in sent))
                <==> SortsApart(h.state, client, topic))
  {
    hide Represents, Sends, CacheAgrees, Splits, PayloadOf, CommittedRun, OrderlyRun, DecLess, InScan, ReplayFrom, ReplayTo;
    var h := Run(sep, start, evs);
    var msgs := h.state.store.msgs;
    RunsKeepAcks(sep, start, base, evs);
    OrderlyRunsStayOrderly(sep, start, base, evs, client, topic);
    var last := LastAck(h.state, client);
    ReplaySendsIff(db, h.state.store, ReplayFrom(last), ReplayTo(last), topic, WindowOf(h.state, client).lookup);
    WindowBelowLast(h.state, client);
    var sent := ClientSends(db, h.state, client, topic);
    assert sent == Sends(db, ReplayFrom(last), ReplayTo(last), topic, WindowOf(h.state, client).lookup);
    forall s: nat | OnTopic(msgs, s, topic)
      ensures ((client, s) !in h.acked <==> MessageAt(msgs, s, topic) in sent)
              <==> var reached := InScan(msgs, ReplayFrom(last), ReplayTo(last), s);
                   if s > last then reached else IsAcked(h.state, client, s) || !reached
    {
      if (client, s) in h.acked { StoredAckIsBelow(h, client, s); }
      assert (client, s) !in h.acked <==> s > last;
      assert MessageAt(msgs, s, topic) in sent <==>
             !IsAcked(h.state, client, s) && InScan(msgs, ReplayFrom(last), ReplayTo(last), s);
    }
  }

  lemma WindowBelowLast(st: State, client: Bytes)
    requires CacheAgrees(st)
    ensures forall s: nat :: IsAcked(st, client, s) ==> s <= LastAck(st, client)
  {
    assert Valid(WindowOf(st, client));
  }
}
