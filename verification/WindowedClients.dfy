/**
  * Clients whose ACKs all fit the bounded window: replay sends them nothing they have
  * acknowledged, at any mix of number widths and wherever the range starts.
  */
module WindowedClients {
  import opened ByteStrings
  import opened KeySpace
  import opened AckWindow
  import opened RangeScan
  import opened BrokerModel
  import opened Numbering
  import opened AckDelivery
  import opened Replay

  function Elements(xs: seq<nat>): set<nat> { set x | x in xs }

  lemma {:induction false} DistinctSize(xs: seq<nat>)
    requires forall i, j :: 0 <= i < j < |xs| ==> xs[i] != xs[j]
    ensures |Elements(xs)| == |xs|
  {
    if xs != [] {
      var n := |xs| - 1;
      DistinctSize(xs[..n]);
      assert xs[n] !in xs[..n];
      assert xs == xs[..n] + [xs[n]];
      assert Elements(xs) == Elements(xs[..n]) + {xs[n]};
    }
  }

  lemma QueueSize(w: Window)
    requires Valid(w)
    ensures |w.order| == |w.lookup|
  {
    DistinctSize(w.order);
    assert Elements(w.order) == w.lookup;
  }

  lemma SubsetSize(a: set<nat>, b: set<nat>)
    requires a <= b
    ensures |a| <= |b|
  {
    assert |b - a| + |a| == |b| by { assert b == (b - a) + a; }
  }

  /** As long as everything inserted comes from a set no larger than the window, nothing is evicted. */
  lemma InsertEvictsNothing(w: Window, s: nat, all: set<nat>)
    requires Valid(w) && w.lookup <= all && s in all && |all| <= MAX
    ensures Inserted(w, s).lookup == w.lookup + {s}
  {
    if s in w.lookup {
      assert w.lookup + {s} == w.lookup;
    } else {
      QueueSize(w);
      SubsetSize(w.lookup + {s}, all);
    }
  }

  lemma {:induction false} InsertAllEvictsNothing(w: Window, xs: seq<nat>, all: set<nat>)
    requires Valid(w) && w.lookup <= all && |all| <= MAX && forall x :: x in xs ==> x in all
    ensures InsertedAll(w, xs).lookup == w.lookup + Elements(xs)
  {
    hide Valid, Inserted;
    if xs == [] {
      assert w.lookup + Elements(xs) == w.lookup;
    } else {
      var n := |xs| - 1;
      InsertAllEvictsNothing(w, xs[..n], all);
      InsertedAllMax(w, xs[..n]);
      InsertEvictsNothing(InsertedAll(w, xs[..n]), xs[n], all);
      assert xs == xs[..n] + [xs[n]];
      assert Elements(xs) == Elements(xs[..n]) + {xs[n]};
    }
  }

  // ----- Runs -----

  /** No ACK comes from an id that continues `client` with a colon. */
  ghost predicate NoContinuedIds(evs: seq<Event>, client: Bytes) {
    forall i :: 0 <= i < |evs| && evs[i].Ack? ==> !(client + [COLON] <= evs[i].client)
  }

  /** The window, and what is on record, hold nothing but ACKs; none on record is of an id that continues the client's. */
  ghost predicate Owned(h: History, client: Bytes) {
    && (forall c, s :: (c, s) in h.state.store.acks ==> (c, s) in h.acked && !(client + [COLON] <= c))
    && WindowOf(h.state, client).lookup <= AcksOf(h.acked, client)
  }

  lemma {:induction false} InsertedAllFrom(w: Window, xs: seq<nat>)
    ensures InsertedAll(w, xs).lookup <= w.lookup + Elements(xs)
  {
    if xs != [] {
      var n := |xs| - 1;
      InsertedAllFrom(w, xs[..n]);
      assert xs == xs[..n] + [xs[n]];
      assert Elements(xs) == Elements(xs[..n]) + {xs[n]};
    }
  }

  lemma NextKeepsOwned(sep: Bytes, h: History, ev: Event, client: Bytes)
    requires AcksKept(h) && Owned(h, client) && Allowed(h, ev)
    requires ev.Ack? ==> !(client + [COLON] <= ev.client)
    ensures Owned(Next(sep, h, ev), client)
  {
    var h' := Next(sep, h, ev);
    assert AcksOf(h.acked, client) <= AcksOf(h'.acked, client);
    if ev.Ack? {
      assert ev.client == client ==> ev.seqId in AcksOf(h'.acked, client);
    } else if ev.Register? && ev.client == client {
      LoadedAcksExact(h.state.store.acks, client);
      InsertedAllFrom(WindowOf(h.state, client), ev.loaded);
    }
  }

  lemma {:induction false} RunsStayOwned(sep: Bytes, h: History, base: nat, evs: seq<Event>, client: Bytes)
    requires Numbered(sep, h, base) && AcksKept(h) && Owned(h, client)
    requires CommittedRun(sep, h, evs) && NoContinuedIds(evs, client)
    ensures Owned(Run(sep, h, evs), client)
    decreases |evs|
  {
    hide Owned, AcksKept, Numbered;
    if evs != [] {
      var n := |evs| - 1;
      CommittedPrefix(sep, h, evs);
      RunsStayOwned(sep, h, base, evs[..n], client);
      RunsKeepAcks(sep, h, base, evs[..n]);
      NextKeepsOwned(sep, Run(sep, h, evs[..n]), evs[n], client);
    }
  }

  // ----- Exactly what goes wrong -----

  /**
    * After every committed run: a stored message on the topic that the client has ACKed is sent
    * again if and only if the window has forgotten it and the scan reaches it; one that it has
    * not ACKed is missed if and only if the scan does not reach it.  With the counter within
    * 100000 of the last ACK, the scan reaches what does not sort before its start in decimal.
    */
  lemma ReplayFaultsIff(sep: Bytes, start: History, base: nat, evs: seq<Event>, client: Bytes, topic: Bytes,
                        db: map<Bytes, Bytes>)
    requires Numbered(sep, start, base) && AcksKept(start) && Owned(start, client)
    requires CommittedRun(sep, start, evs) && NoContinuedIds(evs, client)
    requires Represents(db, Run(sep, start, evs).state.store)
    ensures var h := Run(sep, start, evs);
            var last := LastAck(h.state, client);
            forall s: nat :: OnTopic(h.state.store.msgs, s, topic) ==>
              var isSent := MessageAt(h.state.store.msgs, s, topic) in ClientSends(db, h.state, client, topic);
              var reached := InScan(h.state.store.msgs, ReplayFrom(last), ReplayTo(last), s);
              && ((client, s) in h.acked ==> (isSent <==> !IsAcked(h.state, client, s) && reached))
              && ((client, s) !in h.acked ==> (!isSent <==> !reached))
              && (h.state.current <= last + MAX_STORED_MESSAGES < U64 ==> (reached <==> !DecLess(s, last + 1)))
  {
    hide Represents, Sends, AcksKept, CommittedRun, Splits, PayloadOf, DecLess, InScan;
    var h := Run(sep, start, evs);
    CommittedRunsAreNumbered(sep, start, base, evs);
    RunsStayOwned(sep, start, base, evs, client);
    var last := LastAck(h.state, client);
    ReplaySendsIff(db, h.state.store, ReplayFrom(last), ReplayTo(last), topic, WindowOf(h.state, client).lookup);
    if h.state.current <= last + MAX_STORED_MESSAGES < U64 {
      forall s: nat | s in h.state.store.msgs
        ensures InScan(h.state.store.msgs, ReplayFrom(last), ReplayTo(last), s) <==> !DecLess(s, last + 1)
      {
        UncutScan(h.state.store.msgs, last + 1, last + MAX_STORED_MESSAGES, s);
      }
    }
  }

  // ----- Clients with few ACKs -----

  /** The window holds nothing but the client's ACKs and, once it is registered, all of those on record. */
  ghost predicate Windowed(h: History, client: Bytes) {
    && Owned(h, client)
    && (client in h.registered ==> AcksOf(h.state.store.acks, client) <= WindowOf(h.state, client).lookup)
  }

  lemma AckKeepsWindowed(sep: Bytes, h: History, ev: Event, client: Bytes)
    requires AcksKept(h) && Windowed(h, client) && ev.Ack? && !(client + [COLON] <= ev.client)
    requires |AcksOf(Next(sep, h, ev).acked, client)| <= MAX
    ensures Windowed(Next(sep, h, ev), client)
  {
    hide Inserted, Valid;
    var h' := Next(sep, h, ev);
    if ev.client == client {
      var all := AcksOf(h'.acked, client);
      assert Valid(WindowOf(h.state, client));
      assert AcksOf(h.acked, client) <= all && (client, ev.seqId) in h'.acked;
      InsertEvictsNothing(WindowOf(h.state, client), ev.seqId, all);
    } else {
      assert AcksOf(h.acked, client) <= AcksOf(h'.acked, client);
    }
  }

  lemma RegisterKeepsWindowed(sep: Bytes, h: History, ev: Event, client: Bytes)
    requires AcksKept(h) && Windowed(h, client) && ev.Register? && Allowed(h, ev)
    requires |AcksOf(h.acked, client)| <= MAX
    ensures Windowed(Next(sep, h, ev), client)
  {
    hide InsertedAll, Valid;
    if ev.client == client {
      var all := AcksOf(h.acked, client);
      assert Valid(WindowOf(h.state, client));
      LoadedAcksExact(h.state.store.acks, client);
      assert forall s :: s in AcksOf(h.state.store.acks, client) ==> s in all;
      InsertAllEvictsNothing(WindowOf(h.state, client), ev.loaded, all);
    }
  }

  lemma NextKeepsWindowed(sep: Bytes, h: History, ev: Event, client: Bytes)
    requires AcksKept(h) && Windowed(h, client) && Allowed(h, ev)
    requires ev.Ack? ==> !(client + [COLON] <= ev.client)
    requires |AcksOf(Next(sep, h, ev).acked, client)| <= MAX
    ensures Windowed(Next(sep, h, ev), client)
  {
    match ev
    case Ack(_, _, _) => AckKeepsWindowed(sep, h, ev, client);
    case Register(_, _) => RegisterKeepsWindowed(sep, h, ev, client);
    case _ =>
  }

  lemma AckedGrows(sep: Bytes, h: History, ev: Event, client: Bytes)
    ensures |AcksOf(h.acked, client)| <= |AcksOf(Next(sep, h, ev).acked, client)|
  {
    SubsetSize(AcksOf(h.acked, client), AcksOf(Next(sep, h, ev).acked, client));
  }

  lemma {:induction false} RunsStayWindowed(sep: Bytes, h: History, base: nat, evs: seq<Event>, client: Bytes)
    requires Numbered(sep, h, base) && AcksKept(h) && Windowed(h, client)
    requires CommittedRun(sep, h, evs) && NoContinuedIds(evs, client)
    requires |AcksOf(Run(sep, h, evs).acked, client)| <= MAX
    ensures Windowed(Run(sep, h, evs), client)
    decreases |evs|
  {
    hide Windowed, AcksKept, Numbered, AcksOf;
    if evs != [] {
      var n := |evs| - 1;
      CommittedPrefix(sep, h, evs);
      AckedGrows(sep, Run(sep, h, evs[..n]), evs[n], client);
      RunsStayWindowed(sep, h, base, evs[..n], client);
      RunsKeepAcks(sep, h, base, evs[..n]);
      NextKeepsWindowed(sep, Run(sep, h, evs[..n]), evs[n], client);
    }
  }

  /**
    * After every committed run in which the client ACKed at most 10000 numbers, client
    * replay off the cursor, whatever range it scans and whatever widths are stored, sends
    * nothing the client has ACKed.
    */
  lemma WindowedReplayNeverResends(sep: Bytes, start: History, base: nat, evs: seq<Event>, client: Bytes,
                                   db: map<Bytes, Bytes>, from: nat, to: nat, topic: Bytes)
    requires Numbered(sep, start, base) && AcksKept(start) && Windowed(start, client)
    requires CommittedRun(sep, start, evs) && NoContinuedIds(evs, client)
    requires var h := Run(sep, start, evs);
             && client in h.registered && |AcksOf(h.acked, client)| <= MAX && Represents(db, h.state.store)
    ensures var h := Run(sep, start, evs);
            ResendsNothing(Sends(db, from, to, topic, WindowOf(h.state, client).lookup), h, client)
  {
    hide Represents, Sends, Splits, PayloadOf, CommittedRun, Numbered, InScan;
    var h := Run(sep, start, evs);
    RunsKeepAcks(sep, start, base, evs);
    RunsStayWindowed(sep, start, base, evs, client);
    var skip := WindowOf(h.state, client).lookup;
    ReplaySendsIff(db, h.state.store, from, to, topic, skip);
    forall l | l in Sends(db, from, to, topic, skip) ensures (client, l.seqId) !in h.acked {
      assert (client, l.seqId) in h.acked ==> AckKept(h, client, l.seqId);
      assert MessageAt(h.state.store.msgs, l.seqId, topic) in Sends(db, from, to, topic, skip);
    }
  }
}
