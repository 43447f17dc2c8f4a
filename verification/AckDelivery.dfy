/**
  * Acknowledgements over whole runs, and what client replay sends.
  */
module AckDelivery {
  import opened ByteStrings
  import opened KeySpace
  import opened AckWindow
  import opened BrokerModel
  import opened Numbering

  // ----- The last-ACK cache -----

  /** The cached last ACK of every client is the maximum of its window. */
  ghost predicate CacheAgrees(st: State) {
    forall c :: Valid(WindowOf(st, c)) && LastAck(st, c) == WindowOf(st, c).maxSeq
  }

  lemma AckKeepsCache(st: State, client: Bytes, s: nat, commits: bool)
    requires CacheAgrees(st)
    ensures CacheAgrees(Acknowledged(st, client, s, commits))
  {
    hide Inserted, Valid;
    var st' := Acknowledged(st, client, s, commits);
    forall c ensures Valid(WindowOf(st', c)) && LastAck(st', c) == WindowOf(st', c).maxSeq {
      assert Valid(WindowOf(st, c));
      InsertedMaxStep(WindowOf(st, client), s);
    }
  }

  lemma InsertedMaxStep(w: Window, s: nat)
    requires Valid(w)
    ensures Valid(Inserted(w, s)) && Inserted(w, s).maxSeq == if s > w.maxSeq then s else w.maxSeq
  {
    InsertedValid(w, s);
  }

  lemma RegisterKeepsCache(st: State, client: Bytes, loaded: seq<nat>)
    requires CacheAgrees(st)
    ensures CacheAgrees(Registered(st, client, loaded))
    ensures var last := LastAck(Registered(st, client, loaded), client);
            last == if MaxOf(loaded) > LastAck(st, client) then MaxOf(loaded) else LastAck(st, client)
  {
    hide InsertedAll, MaxOf;
    var st' := Registered(st, client, loaded);
    var w := WindowOf(st, client);
    assert Valid(w);
    InsertedAllMax(w, loaded);
    EmptyLookup(InsertedAll(w, loaded));
    forall c ensures Valid(WindowOf(st', c)) && LastAck(st', c) == WindowOf(st', c).maxSeq {
      assert Valid(WindowOf(st, c)) && LastAck(st, c) == WindowOf(st, c).maxSeq;
    }
  }

  lemma EmptyLookup(w: Window)
    requires Valid(w)
    ensures w.lookup == {} ==> w.maxSeq == 0
  {
    assert |w.order| > 0 ==> w.order[0] in w.lookup;
  }

  /** The cache agrees after every run, whatever commits and whatever the iteration order on loading. */
  lemma {:induction false} RunsKeepCache(sep: Bytes, h: History, evs: seq<Event>)
    requires CacheAgrees(h.state) && ValidRun(sep, h, evs)
    ensures CacheAgrees(Run(sep, h, evs).state)
    decreases |evs|
  {
    if evs != [] {
      var n := |evs| - 1;
      RunsKeepCache(sep, h, evs[..n]);
      NextKeepsCache(sep, Run(sep, h, evs[..n]), evs[n]);
    }
  }

  lemma NextKeepsCache(sep: Bytes, h: History, ev: Event)
    requires CacheAgrees(h.state)
    ensures CacheAgrees(Next(sep, h, ev).state)
  {
    match ev
    case Ack(c, s, commits) => AckKeepsCache(h.state, c, s, commits);
    case Register(c, loaded) => RegisterKeepsCache(h.state, c, loaded);
    case Publish(_, _, _) => SameWindows(h.state, Next(sep, h, ev).state);
    case Restart =>
  }

  lemma SameWindows(st: State, st': State)
    requires CacheAgrees(st) && st'.windows == st.windows && st'.lastAck == st.lastAck
    ensures CacheAgrees(st')
  {
    forall c ensures Valid(WindowOf(st', c)) && LastAck(st', c) == WindowOf(st', c).maxSeq {
      assert Valid(WindowOf(st, c));
    }
  }

  /** Registering yields one last ACK, in whatever order the loaded set is iterated. */
  lemma ReloadOrderIrrelevant(st: State, client: Bytes, xs: seq<nat>, ys: seq<nat>)
    requires CacheAgrees(st) && forall s :: s in xs <==> s in ys
    ensures LastAck(Registered(st, client, xs), client) == LastAck(Registered(st, client, ys), client)
  {
    RegisterKeepsCache(st, client, xs);
    RegisterKeepsCache(st, client, ys);
    MaxOfSameElements(xs, ys);
    MaxOfSameElements(ys, xs);
  }

  // ----- ACKs are never lost for a stored message -----

  /** An ACK is on record, or its message is gone for good. */
  ghost predicate AckKept(h: History, client: Bytes, s: nat) {
    (client, s) in h.state.store.acks || (s <= h.state.current && s !in h.state.store.msgs)
  }

  ghost predicate AcksKept(h: History) {
    && CacheAgrees(h.state)
    && (forall c, s :: (c, s) in h.state.store.acks ==> s < U64)
    && (forall c, s :: (c, s) in h.acked ==> AckKept(h, c, s))
    && (forall c, s :: c in h.registered && (c, s) in h.state.store.acks ==> s <= LastAck(h.state, c))
  }

  lemma PublishKeepsAcks(sep: Bytes, h: History, base: nat, ev: Event)
    requires Numbered(sep, h, base) && AcksKept(h) && Allowed(h, ev) && Commits(ev) && ev.Publish?
    ensures AcksKept(Next(sep, h, ev))
  {
    hide Record, CacheAgrees;
    var h' := Next(sep, h, ev);
    NextKeepsCache(sep, h, ev);
    forall c, s | (c, s) in h'.acked ensures AckKept(h', c, s) {
      assert AckKept(h, c, s);
    }
    forall c, s | c in h'.registered && (c, s) in h'.state.store.acks ensures s <= LastAck(h'.state, c) {
      assert (c, s) in h.state.store.acks;
    }
  }

  lemma AckKeepsAcks(sep: Bytes, h: History, ev: Event)
    requires AcksKept(h) && Allowed(h, ev) && Commits(ev) && ev.Ack?
    ensures AcksKept(Next(sep, h, ev))
  {
    hide CacheAgrees, Inserted;
    var h' := Next(sep, h, ev);
    NextKeepsCache(sep, h, ev);
    forall c, s | (c, s) in h'.acked ensures AckKept(h', c, s) {
      if (c, s) != (ev.client, ev.seqId) { assert AckKept(h, c, s); }
    }
    forall c, s | c in h'.registered && (c, s) in h'.state.store.acks ensures s <= LastAck(h'.state, c) {
      if (c, s) != (ev.client, ev.seqId) { assert (c, s) in h.state.store.acks; }
    }
  }

  lemma RegisterKeepsAcks(sep: Bytes, h: History, ev: Event)
    requires AcksKept(h) && Allowed(h, ev) && ev.Register?
    ensures AcksKept(Next(sep, h, ev))
  {
    hide CacheAgrees, Registered, MaxOf;
    var h' := Next(sep, h, ev);
    NextKeepsCache(sep, h, ev);
    RegisterKeepsCache(h.state, ev.client, ev.loaded);
    RegisterLeavesRest(h.state, ev.client, ev.loaded);
    LoadedAcksComplete(h.state.store.acks, ev.client);
    MaxOfSpec(ev.loaded);
    forall c, s | (c, s) in h'.acked ensures AckKept(h', c, s) {
      assert AckKept(h, c, s);
    }
    forall c, s | c in h'.registered && (c, s) in h'.state.store.acks ensures s <= LastAck(h'.state, c) {
      if c == ev.client {
        assert s in AcksOf(h.state.store.acks, c);
        assert s in ev.loaded;
      }
    }
  }

  lemma RegisterLeavesRest(st: State, client: Bytes, loaded: seq<nat>)
    ensures var st' := Registered(st, client, loaded);
            && st'.store == st.store && st'.current == st.current && st'.publishCount == st.publishCount
            && forall c :: c != client ==> LastAck(st', c) == LastAck(st, c)
  {
  }

  lemma NextKeepsAcks(sep: Bytes, h: History, base: nat, ev: Event)
    requires Numbered(sep, h, base) && AcksKept(h) && Allowed(h, ev) && Commits(ev)
    ensures AcksKept(Next(sep, h, ev))
  {
    match ev
    case Publish(_, _, _) => PublishKeepsAcks(sep, h, base, ev);
    case Ack(_, _, _) => AckKeepsAcks(sep, h, ev);
    case Register(_, _) => RegisterKeepsAcks(sep, h, ev);
    case Restart =>
      assert forall c, s :: (c, s) in h.acked ==> AckKept(h, c, s) ==> AckKept(Next(sep, h, ev), c, s);
  }

  lemma {:induction false} RunsKeepAcks(sep: Bytes, h: History, base: nat, evs: seq<Event>)
    requires Numbered(sep, h, base) && AcksKept(h) && CommittedRun(sep, h, evs)
    ensures Numbered(sep, Run(sep, h, evs), base) && AcksKept(Run(sep, h, evs))
    decreases |evs|
  {
    if evs != [] {
      var n := |evs| - 1;
      CommittedPrefix(sep, h, evs);
      RunsKeepAcks(sep, h, base, evs[..n]);
      CommittedRunsAreNumbered(sep, h, base, evs);
      NextKeepsAcks(sep, Run(sep, h, evs[..n]), base, evs[n]);
    }
  }

  lemma StoredAckIsBelow(h: History, client: Bytes, s: nat)
    requires AcksKept(h) && client in h.registered
    requires s in h.state.store.msgs && (client, s) in h.acked
    ensures s <= LastAck(h.state, client)
  {
    assert AckKept(h, client, s);
  }

  /**
    * After every committed run, restarts and compaction included: a still-stored message a
    * registered client has ACKed is not above its last ACK, for any client ids.
    */
  lemma AckedIsBelowLastAck(sep: Bytes, start: History, base: nat, evs: seq<Event>)
    requires Numbered(sep, start, base) && AcksKept(start) && CommittedRun(sep, start, evs)
    ensures var h := Run(sep, start, evs);
            forall client, s :: client in h.registered && s in h.state.store.msgs && (client, s) in h.acked ==>
              s <= LastAck(h.state, client)
  {
    hide Numbered, CommittedRun, Run, AcksKept;
    RunsKeepAcks(sep, start, base, evs);
    var h := Run(sep, start, evs);
    forall client, s | client in h.registered && s in h.state.store.msgs && (client, s) in h.acked
      ensures s <= LastAck(h.state, client)
    {
      StoredAckIsBelow(h, client, s);
    }
  }

  // ----- Windows are their history -----

  /** What a run puts into the window of a client since the last restart: its ACKs, and what registrations load. */
  function Inserts(evs: seq<Event>, client: Bytes): seq<nat> {
    if evs == [] then []
    else
      var before := Inserts(evs[..|evs| - 1], client);
      match evs[|evs| - 1]
      case Restart => []
      case Ack(c, s, _) => if c == client then before + [s] else before
      case Register(c, loaded) => if c == client then before + loaded else before
      case Publish(_, _, _) => before
  }

  lemma {:induction false} InsertedAllAppend(w: Window, xs: seq<nat>, ys: seq<nat>)
    ensures InsertedAll(w, xs + ys) == InsertedAll(InsertedAll(w, xs), ys)
    decreases |ys|
  {
    hide Inserted;
    if ys == [] {
      assert xs + ys == xs;
    } else {
      var n := |ys| - 1;
      InsertedAllAppend(w, xs, ys[..n]);
      assert (xs + ys)[..|xs| + n] == xs + ys[..n];
    }
  }

  lemma InsertedOne(w: Window, s: nat)
    ensures InsertedAll(w, [s]) == Inserted(w, s)
  {
    assert [s][..0] == [];
  }

  lemma NextWindow(sep: Bytes, st: State, ev: Event, client: Bytes)
    ensures WindowOf(Step(sep, st, ev), client) ==
            match ev
            case Restart => EMPTY
            case Ack(c, s, _) => if c == client then Inserted(WindowOf(st, client), s) else WindowOf(st, client)
            case Register(c, loaded) => if c == client then InsertedAll(WindowOf(st, client), loaded) else WindowOf(st, client)
            case Publish(_, _, _) => WindowOf(st, client)
  {
    hide Inserted, InsertedAll;
  }

  /**
    * After every run, committed or not, the window of a client is what its ACKs and the ACKs
    * loaded for it since the last restart leave, in that order, and its last ACK the largest of them.
    */
  lemma {:induction false} WindowIsHistory(sep: Bytes, evs: seq<Event>, client: Bytes)
    requires ValidRun(sep, FRESH, evs)
    ensures var st := Run(sep, FRESH, evs).state;
            WindowOf(st, client) == InsertedAll(EMPTY, Inserts(evs, client)) && LastAck(st, client) == MaxOf(Inserts(evs, client))
    decreases |evs|
  {
    WindowsFollow(sep, evs, client);
    FreshCache();
    RunsKeepCache(sep, FRESH, evs);
    hide InsertedAll, MaxOf, Run;
    var st := Run(sep, FRESH, evs).state;
    EmptyWindow();
    InsertedAllMax(EMPTY, Inserts(evs, client));
    assert LastAck(st, client) == WindowOf(st, client).maxSeq by { assert Valid(WindowOf(st, client)); }
  }

  lemma FreshCache()
    ensures CacheAgrees(FRESH.state)
  {
  }

  lemma {:induction false} WindowsFollow(sep: Bytes, evs: seq<Event>, client: Bytes)
    ensures WindowOf(Run(sep, FRESH, evs).state, client) == InsertedAll(EMPTY, Inserts(evs, client))
    decreases |evs|
  {
    hide WindowOf, Step, Inserted;
    if evs == [] {
      NoWindow(sep, client);
    } else {
      var n := |evs| - 1;
      WindowsFollow(sep, evs[..n], client);
      var before := Inserts(evs[..n], client);
      NextWindow(sep, Run(sep, FRESH, evs[..n]).state, evs[n], client);
      if evs[n].Ack? {
        InsertedAllAppend(EMPTY, before, [evs[n].seqId]);
        InsertedOne(InsertedAll(EMPTY, before), evs[n].seqId);
      } else if evs[n].Register? {
        InsertedAllAppend(EMPTY, before, evs[n].loaded);
      }
    }
  }

  lemma NoWindow(sep: Bytes, client: Bytes)
    ensures WindowOf(Run(sep, FRESH, []).state, client) == EMPTY == InsertedAll(EMPTY, [])
  {
  }
}
