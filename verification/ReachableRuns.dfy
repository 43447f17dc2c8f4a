/**
  * A client that acknowledges in order, followed from an empty store: exactly which
  * messages client replay sends it, and ordinary runs on which one is resent or missed.
  */
module ReachableRuns {
  import opened ByteStrings
  import opened Decimal
  import opened KeySpace
  import opened AckWindow
  import opened LmdbStorage
  import opened RangeScan
  import opened BrokerModel
  import opened Numbering
  import opened AckDelivery
  import opened Replay
  import opened WindowedClients
  import O = OrderlyClients

  const SEP: Bytes := DOCUMENTED_SEPARATOR

  // ----- Every run has a database -----

  lemma EventHasDatabase(sep: Bytes, h: History, ev: Event, db: map<Bytes, Bytes>) returns (db': map<Bytes, Bytes>)
    requires Represents(db, h.state.store) && Allowed(h, ev)
    ensures Represents(db', Next(sep, h, ev).state.store)
  {
    hide Represents, Record, Saved, Compacted, AcksPurged, AckSaved;
    db' := db;
    if ev.Ack? && ev.commits {
      SaveAckRepresents(db, h.state.store, ev.client, ev.seqId);
      db' := db[AckKey(ev.client, ev.seqId) := ACK_FLAG];
    } else if ev.Publish? {
      var store := h.state.store;
      if ev.writes.save {
        var record := Record(sep, ev.topic, ev.payload);
        SaveRepresents(db, store, record);
        var next := Add64(store.last, 1);
        db' := db[MsgKey(next) := record][LAST_SEQ := BigEndian(next, 8)];
        store := Saved(store, record);
      }
      var h' := Next(sep, h, ev);
      if h'.state.publishCount % COMPACT_EVERY == 0 && h'.state.current > MAX_STORED_MESSAGES {
        var t := h'.state.current - MAX_STORED_MESSAGES;
        if ev.writes.compact {
          CompactRepresents(db', store, t);
          db' := db' - OldMessageKeys(db', t);
          store := Compacted(store, t);
        }
        if ev.writes.purge {
          PurgeRepresents(db', store, t);
          db' := db' - OldAckKeys(db', t);
        }
      }
    }
  }

  lemma {:induction false} RunHasDatabase(sep: Bytes, h: History, evs: seq<Event>, db: map<Bytes, Bytes>)
      returns (db': map<Bytes, Bytes>)
    requires Represents(db, h.state.store) && ValidRun(sep, h, evs)
    ensures Represents(db', Run(sep, h, evs).state.store)
    decreases |evs|
  {
    hide Represents, Next, Allowed;
    db' := db;
    if evs != [] {
      var n := |evs| - 1;
      var before := RunHasDatabase(sep, h, evs[..n], db);
      db' := EventHasDatabase(sep, Run(sep, h, evs[..n]), evs[n], before);
    }
  }

  lemma EmptyDatabase()
    ensures Represents(map[], EMPTY_STORE)
  {
  }

  // ----- The story: register, n publishes, ACKs of 1 to m -----

  function UpTo(m: nat): seq<nat> {
    if m == 0 then [] else UpTo(m - 1) + [m]
  }

  lemma {:induction false} UpToSpec(m: nat)
    ensures |UpTo(m)| == m && forall i :: 0 <= i < m ==> UpTo(m)[i] == i + 1
  {
    if m > 0 { UpToSpec(m - 1); }
  }

  /** What the window keeps of the ACKs 1 to m. */
  lemma UpToWindow(m: nat, s: nat)
    ensures s in InsertedAll(EMPTY, UpTo(m)).lookup <==> 1 <= s <= m < s + MAX
  {
    hide InsertedAll, UpTo;
    UpToSpec(m);
    IncreasingWindow(UpTo(m));
    var last := LastMax(UpTo(m));
    if 1 <= s <= m < s + MAX {
      assert last[if m <= MAX then s - 1 else s - 1 - (m - MAX)] == s;
    }
  }

  function Story(topic: Bytes, payload: Bytes, client: Bytes, n: nat, m: nat): seq<Event> {
    if m > 0 then Story(topic, payload, client, n, m - 1) + [Ack(client, m, true)]
    else if n > 0 then Story(topic, payload, client, n - 1, 0) + [Publish(topic, payload, COMMITTED)]
    else [Register(client, [])]
  }

  /** The state the story leads to. */
  ghost predicate Told(h: History, topic: Bytes, payload: Bytes, client: Bytes, n: nat, m: nat) {
    && h.state.current == h.state.publishCount == n
    && h.registered == {client}
    && (forall s :: s in h.state.store.msgs <==> 1 <= s <= n)
    && (forall s :: s in h.state.store.msgs ==> h.state.store.msgs[s] == Record(SEP, topic, payload))
    && (forall s :: (client, s) in h.acked <==> 1 <= s <= m)
    && WindowOf(h.state, client) == InsertedAll(EMPTY, UpTo(m)) && LastAck(h.state, client) == m
  }

  lemma StoryStarts(topic: Bytes, payload: Bytes, client: Bytes)
    ensures CommittedRun(SEP, FRESH, [Register(client, [])])
    ensures Told(Run(SEP, FRESH, [Register(client, [])]), topic, payload, client, 0, 0)
  {
    var evs := [Register(client, [])];
    assert evs[..0] == [];
    assert Run(SEP, FRESH, evs[..0]) == FRESH;
    assert Allowed(FRESH, evs[0]);
    assert InsertedAll(EMPTY, []) == EMPTY && UpTo(0) == [];
  }

  lemma TellPublish(h: History, topic: Bytes, payload: Bytes, client: Bytes, n: nat)
    requires Numbered(SEP, h, 0) && Told(h, topic, payload, client, n, 0) && n < MAX_STORED_MESSAGES
    ensures Told(Next(SEP, h, Publish(topic, payload, COMMITTED)), topic, payload, client, n + 1, 0)
  {
    hide Record, InsertedAll, UpTo;
    var h' := Next(SEP, h, Publish(topic, payload, COMMITTED));
    assert h'.state.store == Saved(h.state.store, Record(SEP, topic, payload));
  }

  lemma TellAck(h: History, topic: Bytes, payload: Bytes, client: Bytes, n: nat, m: nat)
    requires Told(h, topic, payload, client, n, m)
    ensures Told(Next(SEP, h, Ack(client, m + 1, true)), topic, payload, client, n, m + 1)
  {
    hide Record, InsertedAll, Inserted, UpTo;
    UpToSnoc(m);
    var h' := Next(SEP, h, Ack(client, m + 1, true));
    assert h'.state == Acknowledged(h.state, client, m + 1, true);
    assert h'.state.store == AckSaved(h.state.store, client, m + 1);
  }

  lemma UpToSnoc(m: nat)
    ensures InsertedAll(EMPTY, UpTo(m + 1)) == Inserted(InsertedAll(EMPTY, UpTo(m)), m + 1)
  {
    hide Inserted;
    assert UpTo(m + 1)[..|UpTo(m)|] == UpTo(m);
  }

  lemma {:induction false} StoryHappens(topic: Bytes, payload: Bytes, client: Bytes, n: nat, m: nat)
    requires m <= n <= MAX_STORED_MESSAGES
    ensures CommittedRun(SEP, FRESH, Story(topic, payload, client, n, m))
    ensures Told(Run(SEP, FRESH, Story(topic, payload, client, n, m)), topic, payload, client, n, m)
    decreases n + m
  {
    hide Told, Next, Numbered, CommittedRun, Run;
    if m > 0 {
      var init := Story(topic, payload, client, n, m - 1);
      StoryHappens(topic, payload, client, n, m - 1);
      CommittedSnoc(SEP, FRESH, init, Ack(client, m, true));
      TellAck(Run(SEP, FRESH, init), topic, payload, client, n, m - 1);
    } else if n > 0 {
      var init := Story(topic, payload, client, n - 1, 0);
      var h := Run(SEP, FRESH, init);
      StoryHappens(topic, payload, client, n - 1, 0);
      O.FreshStart(SEP, client, topic);
      CommittedRunsAreNumbered(SEP, FRESH, 0, init);
      ToldCounter(h, topic, payload, client, n - 1, 0);
      CommittedSnoc(SEP, FRESH, init, Publish(topic, payload, COMMITTED));
      TellPublish(h, topic, payload, client, n - 1);
    } else {
      StoryStarts(topic, payload, client);
    }
  }

  lemma ToldCounter(h: History, topic: Bytes, payload: Bytes, client: Bytes, n: nat, m: nat)
    requires Told(h, topic, payload, client, n, m)
    ensures h.state.current == n
  {
  }

  lemma {:induction false} StoryHasOneClient(topic: Bytes, payload: Bytes, client: Bytes, n: nat, m: nat)
    ensures NoContinuedIds(Story(topic, payload, client, n, m), client)
    decreases n + m
  {
    if m > 0 {
      StoryHasOneClient(topic, payload, client, n, m - 1);
    } else if n > 0 {
      StoryHasOneClient(topic, payload, client, n - 1, 0);
    }
  }

  /**
    * A client that ACKed 1 to m of n messages on its topic, n at most 100000, is sent message
    * s by client replay if and only if s is un-ACKed or ACKed more than 10000 ACKs ago, and
    * s does not sort before m + 1 in decimal.
    */
  lemma InOrderReplaySends(topic: Bytes, payload: Bytes, client: Bytes, n: nat, m: nat, s: nat, db: map<Bytes, Bytes>)
    requires m <= n <= MAX_STORED_MESSAGES && 1 <= s <= n && 0 !in topic
    requires Represents(db, Run(SEP, FRESH, Story(topic, payload, client, n, m)).state.store)
    ensures var h := Run(SEP, FRESH, Story(topic, payload, client, n, m));
            && s in h.state.store.msgs
            && ((client, s) in h.acked <==> s <= m)
            && (MessageAt(h.state.store.msgs, s, topic) in ClientSends(db, h.state, client, topic)
                <==> (s > m || s + MAX <= m) && !DecLess(s, m + 1))
  {
    hide Represents, Sends, Story, Run, DecLess, Numbered, AcksKept, CommittedRun, InsertedAll, UpTo, PayloadOf;
    var evs := Story(topic, payload, client, n, m);
    var h := Run(SEP, FRESH, evs);
    StoryHappens(topic, payload, client, n, m);
    StoryHasOneClient(topic, payload, client, n, m);
    FreshOwned(topic, client);
    RecordRoundTrip(SEP, topic, payload);
    assert OnTopic(h.state.store.msgs, s, topic);
    UpToWindow(m, s);
    ReplayFaultsIff(SEP, FRESH, 0, evs, client, topic, db);
  }

  lemma FreshOwned(topic: Bytes, client: Bytes)
    ensures Numbered(SEP, FRESH, 0) && AcksKept(FRESH) && Owned(FRESH, client)
  {
    O.FreshStart(SEP, client, topic);
  }

  // ----- Two ordinary runs -----

  lemma FirstByteDecides(s: nat, t: nat)
    requires Dec(s)[0] != Dec(t)[0]
    ensures DecLess(s, t) <==> Dec(s)[0] < Dec(t)[0]
  {
  }

  lemma {:induction false} LeadingDigitOf(n: nat, k: nat)
    ensures Dec(n * 10 + k % 10)[0] == Dec(if n == 0 then k % 10 else n)[0]
  {
    var x := n * 10 + k % 10;
    if n > 0 { assert x / 10 == n && Dec(x) == Dec(n) + [48 + x % 10]; }
  }

  lemma ThreeSortsAfter20001()
    ensures !DecLess(3, 20001)
  {
    LeadingDigitOf(2000, 1);
    LeadingDigitOf(200, 0);
    LeadingDigitOf(20, 0);
    LeadingDigitOf(2, 0);
    assert Dec(3)[0] == 51 && Dec(2)[0] == 50;
    FirstByteDecides(3, 20001);
  }

  lemma ThousandSortsBefore101()
    ensures DecLess(1000, 101)
  {
    assert Dec(10) == [49, 48];
    assert Dec(100) == Dec(10) + [48];
    assert Dec(1000) == Dec(100) + [48];
    assert Dec(101) == Dec(10) + [49];
    LessCommonPrefix([49, 48], [48, 48], [49]);
    assert Dec(1000) == [49, 48] + [48, 48] && Dec(101) == [49, 48] + [49];
  }

  /** 20000 messages, all ACKed in order: client replay sends message 3 again. */
  lemma MixedWidthResend(topic: Bytes, payload: Bytes, client: Bytes) returns (evs: seq<Event>, db: map<Bytes, Bytes>)
    requires 0 !in topic
    ensures CommittedRun(SEP, FRESH, evs)
    ensures var h := Run(SEP, FRESH, evs);
            && Represents(db, h.state.store) && client in h.registered
            && (client, 3) in h.acked && 3 in h.state.store.msgs
            && MessageAt(h.state.store.msgs, 3, topic) in ClientSends(db, h.state, client, topic)
  {
    hide Represents, Sends, Story, Run, CommittedRun, DecLess;
    evs := Story(topic, payload, client, 20000, 20000);
    StoryHappens(topic, payload, client, 20000, 20000);
    EmptyDatabase();
    CommittedIsValid(evs);
    db := RunHasDatabase(SEP, FRESH, evs, map[]);
    InOrderReplaySends(topic, payload, client, 20000, 20000, 3, db);
    ThreeSortsAfter20001();
  }

  /** 1500 messages, the first 100 ACKed in order: client replay never sends message 1000. */
  lemma MixedWidthLoss(topic: Bytes, payload: Bytes, client: Bytes) returns (evs: seq<Event>, db: map<Bytes, Bytes>)
    requires 0 !in topic
    ensures CommittedRun(SEP, FRESH, evs)
    ensures var h := Run(SEP, FRESH, evs);
            && Represents(db, h.state.store) && client in h.registered
            && (client, 1000) !in h.acked && 1000 in h.state.store.msgs
            && MessageAt(h.state.store.msgs, 1000, topic) !in ClientSends(db, h.state, client, topic)
  {
    hide Represents, Sends, Story, Run, CommittedRun, DecLess;
    evs := Story(topic, payload, client, 1500, 100);
    StoryHappens(topic, payload, client, 1500, 100);
    EmptyDatabase();
    CommittedIsValid(evs);
    db := RunHasDatabase(SEP, FRESH, evs, map[]);
    InOrderReplaySends(topic, payload, client, 1500, 100, 1000, db);
    ThousandSortsBefore101();
  }

  /** The window after the ACKs 1 to 10000 and one above them has forgotten 1. */
  lemma TopAckEvicts(top: nat)
    requires top > MAX
    ensures 1 !in Inserted(InsertedAll(EMPTY, UpTo(MAX)), top).lookup
  {
    hide Inserted, UpTo;
    var xs := UpTo(MAX) + [top];
    UpToSpec(MAX);
    assert xs[..MAX] == UpTo(MAX) && xs[0] == 1;
    EvictedButBelowMax(xs);
  }

  /** 10000 messages, all ACKed in order, and an ACK of 2^64 - 1: client replay sends message 1 again. */
  lemma TopAckResend(topic: Bytes, payload: Bytes, client: Bytes) returns (evs: seq<Event>, db: map<Bytes, Bytes>)
    requires 0 !in topic
    ensures CommittedRun(SEP, FRESH, evs)
    ensures var h := Run(SEP, FRESH, evs);
            && Represents(db, h.state.store) && client in h.registered
            && (client, 1) in h.acked && 1 in h.state.store.msgs
            && MessageAt(h.state.store.msgs, 1, topic) in ClientSends(db, h.state, client, topic)
  {
    hide Represents, Sends, Story, Run, CommittedRun, Inserted, InsertedAll, UpTo, Record, PayloadOf;
    var init, top := Story(topic, payload, client, MAX, MAX), Ack(client, U64 - 1, true);
    StoryHappens(topic, payload, client, MAX, MAX);
    CommittedSnoc(SEP, FRESH, init, top);
    evs := init + [top];
    var h := Run(SEP, FRESH, evs);
    EmptyDatabase();
    CommittedIsValid(evs);
    db := RunHasDatabase(SEP, FRESH, evs, map[]);
    TopAckEvicts(U64 - 1);
    RecordRoundTrip(SEP, topic, payload);
    assert OnTopic(h.state.store.msgs, 1, topic);
    TopAckResendsIff(client, topic, db, h.state);
  }

  lemma CommittedIsValid(evs: seq<Event>)
    requires CommittedRun(SEP, FRESH, evs)
    ensures ValidRun(SEP, FRESH, evs)
  {
  }

  /** Ten publishes leave 1 to 10 stored, where load_range already departs from its documented range. */
  lemma TenPublishesBreakContract(topic: Bytes, payload: Bytes, client: Bytes) returns (db: map<Bytes, Bytes>)
    ensures var evs := Story(topic, payload, client, 10, 0);
            var msgs := Run(SEP, FRESH, evs).state.store.msgs;
            && CommittedRun(SEP, FRESH, evs) && Represents(db, Run(SEP, FRESH, evs).state.store)
            && Visited(db, 10, 20).Some? && IsVisited(Visited(db, 10, 20).value, msgs, 2)
            && Visited(db, 1, 5).Some? && !IsVisited(Visited(db, 1, 5).value, msgs, 2)
  {
    hide Represents, Story, Run, CommittedRun, Visited, IsVisited;
    var evs := Story(topic, payload, client, 10, 0);
    StoryHappens(topic, payload, client, 10, 0);
    EmptyDatabase();
    CommittedIsValid(evs);
    db := RunHasDatabase(SEP, FRESH, evs, map[]);
    MixedWidthsBreakContract(db, Run(SEP, FRESH, evs).state.store);
  }
}
