/**
  * What stays in the store: periodic compaction keeps the newest messages and bounds
  * how many there are.
  */
module Retention {
  import opened ByteStrings
  import opened KeySpace
  import opened BrokerModel
  import opened Numbering

  const SLACK: nat := COMPACT_EVERY - 1

  /** How far behind the counter a stored number may be. */
  function Reach(h: History): nat {
    MAX_STORED_MESSAGES + SLACK * h.restarts + h.state.publishCount % COMPACT_EVERY
  }

  /** Nothing stored is older than the window, and of the messages sent none of the newest is missing. */
  ghost predicate Retained(h: History) {
    && h.state.publishCount <= h.state.current
    && (forall s :: s in h.state.store.msgs ==> s + Reach(h) > h.state.current)
    && (forall i :: 0 <= i < |h.sent| && h.sent[i].seqId + MAX_STORED_MESSAGES > h.state.current ==>
          h.sent[i].seqId in h.state.store.msgs)
  }

  lemma CountStep(c: nat)
    ensures var r := (c + 1) % COMPACT_EVERY;
            r == 0 || r == c % COMPACT_EVERY + 1
    ensures c % COMPACT_EVERY <= SLACK
  {
  }

  /** The oldest number kept when a publish brings the counter to `current`. */
  lemma PublishKeepsWindow(store: Store, after: Store, current: nat, reach: nat, compacts: bool)
    requires forall s :: s in store.msgs ==> s >= 1 && s + reach >= current
    requires after == if compacts then CompactedTo(store, current, COMMITTED) else store
    ensures forall s :: s in after.msgs ==> s + (if compacts then MAX_STORED_MESSAGES else reach + 1) > current
    ensures forall s :: s in store.msgs && s + MAX_STORED_MESSAGES > current ==> s in after.msgs
  {
  }

  lemma PublishKeepsRetained(sep: Bytes, h: History, base: nat, ev: Event)
    requires Numbered(sep, h, base) && Retained(h) && Allowed(h, ev) && Commits(ev) && ev.Publish?
    ensures Retained(Next(sep, h, ev))
  {
    hide Record, CompactedTo, Compacted;
    CountStep(h.state.publishCount);
    var h' := Next(sep, h, ev);
    var slack := SLACK * h.restarts;
    var compacts := h'.state.publishCount % COMPACT_EVERY == 0;
    var saved := Saved(h.state.store, Record(sep, ev.topic, ev.payload));
    assert slack >= 0;
    assert Reach(h') == if compacts then MAX_STORED_MESSAGES + slack else Reach(h) + 1;
    forall s | s in saved.msgs ensures s >= 1 && s + Reach(h) >= h'.state.current {
      if s == h'.state.current {
      } else {
        assert s in h.state.store.msgs;
      }
    }
    PublishKeepsWindow(saved, h'.state.store, h'.state.current, Reach(h), compacts);
    forall i | 0 <= i < |h'.sent| && h'.sent[i].seqId + MAX_STORED_MESSAGES > h'.state.current
      ensures h'.sent[i].seqId in h'.state.store.msgs
    {
      assert h'.sent[i].seqId in saved.msgs;
    }
  }

  lemma NextKeepsRetained(sep: Bytes, h: History, base: nat, ev: Event)
    requires Numbered(sep, h, base) && Retained(h) && Allowed(h, ev) && Commits(ev)
    ensures Retained(Next(sep, h, ev))
  {
    match ev
    case Publish(_, _, _) => PublishKeepsRetained(sep, h, base, ev);
    case Restart =>
      CountStep(h.state.publishCount);
      assert Reach(h) <= Reach(Next(sep, h, ev));
    case _ =>
  }

  /**
    * Over every committed run from inside the window: each stored number is within the
    * window, widened by at most 999 for the publishes since the last compaction and for
    * each restart (which forgets that count), and the newest 100000 sent are all stored.
    */
  lemma {:induction false} RunsAreRetained(sep: Bytes, h: History, base: nat, evs: seq<Event>)
    requires Numbered(sep, h, base) && Retained(h) && CommittedRun(sep, h, evs)
    ensures Retained(Run(sep, h, evs)) && Numbered(sep, Run(sep, h, evs), base)
    decreases |evs|
  {
    if evs != [] {
      var n := |evs| - 1;
      CommittedPrefix(sep, h, evs);
      RunsAreRetained(sep, h, base, evs[..n]);
      CommittedRunsAreNumbered(sep, h, base, evs);
      NextKeepsRetained(sep, Run(sep, h, evs[..n]), base, evs[n]);
    }
  }

  // ----- No holes -----

  /** Everything after a stored number, up to the counter, is stored. */
  ghost predicate Gapless(h: History) {
    forall s: nat, u: nat :: s in h.state.store.msgs && s < u <= h.state.current ==> u in h.state.store.msgs
  }

  lemma NextKeepsGapless(sep: Bytes, h: History, base: nat, ev: Event)
    requires Numbered(sep, h, base) && Gapless(h) && Allowed(h, ev) && Commits(ev)
    ensures Gapless(Next(sep, h, ev))
  {
    hide Record;
  }

  // ----- Exactly what is stored -----

  function PublishCount(evs: seq<Event>): nat {
    if evs == [] then 0 else PublishCount(evs[..|evs| - 1]) + if evs[|evs| - 1].Publish? then 1 else 0
  }

  /** Publishes since the last restart; `count` of them before the run. */
  function SinceRestart(count: nat, evs: seq<Event>): nat {
    if evs == [] then count
    else if evs[|evs| - 1].Restart? then 0
    else SinceRestart(count, evs[..|evs| - 1]) + if evs[|evs| - 1].Publish? then 1 else 0
  }

  /** The last event is a publish at which compaction is due. */
  predicate Compacts(current: nat, count: nat, evs: seq<Event>) {
    && evs != [] && evs[|evs| - 1].Publish?
    && current + PublishCount(evs) > MAX_STORED_MESSAGES && SinceRestart(count, evs) % COMPACT_EVERY == 0
  }

  /**
    * Everything up to here is gone: the counter minus 100000 at the last compaction, or what
    * was gone before the run if that is more.
    */
  function Cut(cut: nat, current: nat, count: nat, evs: seq<Event>): nat
    decreases |evs|
  {
    if evs == [] then cut
    else
      var before := Cut(cut, current, count, evs[..|evs| - 1]);
      if Compacts(current, count, evs) && current + PublishCount(evs) - MAX_STORED_MESSAGES > before
      then current + PublishCount(evs) - MAX_STORED_MESSAGES
      else before
  }

  /** Stored are exactly the numbers above `cut` up to the counter. */
  ghost predicate StoresAbove(h: History, cut: nat) {
    && cut <= h.state.current && h.state.publishCount <= h.state.current
    && forall s :: s in h.state.store.msgs <==> cut < s <= h.state.current
  }

  lemma NextStoresAbove(sep: Bytes, h: History, base: nat, cut: nat, ev: Event)
    requires Numbered(sep, h, base) && StoresAbove(h, cut) && Allowed(h, ev) && Commits(ev)
    ensures var st := Next(sep, h, ev).state;
            var t := st.current - MAX_STORED_MESSAGES;
            && st.current == h.state.current + (if ev.Publish? then 1 else 0)
            && st.publishCount == (if ev.Restart? then 0 else h.state.publishCount + if ev.Publish? then 1 else 0)
            && StoresAbove(Next(sep, h, ev),
                           if ev.Publish? && st.publishCount % COMPACT_EVERY == 0 && t > cut then t else cut)
  {
    hide Record;
  }

  lemma {:induction false} RunStoresAbove(sep: Bytes, h: History, base: nat, cut: nat, evs: seq<Event>)
    requires Numbered(sep, h, base) && StoresAbove(h, cut) && CommittedRun(sep, h, evs)
    ensures var r := Run(sep, h, evs);
            && r.state.current == h.state.current + PublishCount(evs)
            && r.state.publishCount == SinceRestart(h.state.publishCount, evs)
            && StoresAbove(r, Cut(cut, h.state.current, h.state.publishCount, evs))
    decreases |evs|
  {
    hide Numbered, Next, StoresAbove;
    if evs != [] {
      var n := |evs| - 1;
      CommittedPrefix(sep, h, evs);
      RunStoresAbove(sep, h, base, cut, evs[..n]);
      CommittedRunsAreNumbered(sep, h, base, evs[..n]);
      NextStoresAbove(sep, Run(sep, h, evs[..n]), base, Cut(cut, h.state.current, h.state.publishCount, evs[..n]), evs[n]);
    }
  }

  /**
    * Over every committed run, whatever is published, ACKed, registered and restarted: stored
    * are exactly the numbers above the cut up to the counter, so their count is the difference.
    */
  lemma StoredExactly(sep: Bytes, h: History, base: nat, cut: nat, evs: seq<Event>)
    requires Numbered(sep, h, base) && StoresAbove(h, cut) && CommittedRun(sep, h, evs)
    ensures var r := Run(sep, h, evs);
            var now := Cut(cut, h.state.current, h.state.publishCount, evs);
            && r.state.current == h.state.current + PublishCount(evs)
            && r.state.publishCount == SinceRestart(h.state.publishCount, evs)
            && StoresAbove(r, now) && |r.state.store.msgs| == r.state.current - now
  {
    hide Numbered, Run, CommittedRun, Cut, PublishCount, SinceRestart;
    RunStoresAbove(sep, h, base, cut, evs);
    var r := Run(sep, h, evs);
    ExactSize(r.state.store.msgs.Keys, Cut(cut, h.state.current, h.state.publishCount, evs), r.state.current);
  }

  lemma {:induction false} ExactSize(xs: set<nat>, lo: nat, hi: nat)
    requires lo <= hi && forall x :: x in xs <==> lo < x <= hi
    ensures |xs| == hi - lo
    decreases hi - lo
  {
    if lo == hi {
      assert xs == {};
    } else {
      ExactSize(xs - {hi}, lo, hi - 1);
    }
  }

  /** The documented window: nothing stored is older than 100000 and the publishes since the last compaction. */
  ghost predicate InsideWindow(st: State) {
    forall s :: s in st.store.msgs ==> s + MAX_STORED_MESSAGES + st.publishCount % COMPACT_EVERY > st.current
  }

  /**
    * After every committed run the documented window holds if and only if nothing is stored or
    * the cut is no further behind the counter than the window is wide.
    */
  lemma InsideWindowIff(sep: Bytes, h: History, base: nat, cut: nat, evs: seq<Event>)
    requires Numbered(sep, h, base) && StoresAbove(h, cut) && CommittedRun(sep, h, evs)
    ensures var st := Run(sep, h, evs).state;
            var now := Cut(cut, h.state.current, h.state.publishCount, evs);
            InsideWindow(st) <==>
            now == st.current || st.current - now <= MAX_STORED_MESSAGES + st.publishCount % COMPACT_EVERY
  {
    hide Numbered, Cut, Run, CommittedRun;
    StoredExactly(sep, h, base, cut, evs);
    var st := Run(sep, h, evs).state;
    var now := Cut(cut, h.state.current, h.state.publishCount, evs);
    if now < st.current { assert now + 1 in st.store.msgs; }
  }

  // ----- A restart postpones compaction -----

  function ManyPublishes(topic: Bytes, payload: Bytes, n: nat): seq<Event> {
    if n == 0 then [] else ManyPublishes(topic, payload, n - 1) + [Publish(topic, payload, COMMITTED)]
  }

  lemma FreshStores(sep: Bytes)
    ensures Numbered(sep, FRESH, 0) && StoresAbove(FRESH, 0)
  {
  }

  lemma TallySnoc(cut: nat, current: nat, count: nat, evs: seq<Event>, ev: Event)
    ensures var all := evs + [ev];
            var publishes := PublishCount(evs) + if ev.Publish? then 1 else 0;
            var since := if ev.Restart? then 0 else SinceRestart(count, evs) + if ev.Publish? then 1 else 0;
            && PublishCount(all) == publishes && SinceRestart(count, all) == since
            && (!(ev.Publish? && current + publishes > MAX_STORED_MESSAGES && since % COMPACT_EVERY == 0) ==>
                  Cut(cut, current, count, all) == Cut(cut, current, count, evs))
  {
    assert (evs + [ev])[..|evs|] == evs;
  }

  /** Up to 100999 publishes nothing is compacted. */
  lemma {:induction false} ManyPublishesHappen(sep: Bytes, topic: Bytes, payload: Bytes, n: nat)
    requires n < MAX_STORED_MESSAGES + COMPACT_EVERY
    ensures var evs := ManyPublishes(topic, payload, n);
            && CommittedRun(sep, FRESH, evs) && PublishCount(evs) == SinceRestart(0, evs) == n && Cut(0, 0, 0, evs) == 0
  {
    hide Run, CommittedRun, Cut, PublishCount, SinceRestart, Numbered, StoresAbove;
    if n == 0 {
      NothingHappens(sep);
    } else {
      var init, ev := ManyPublishes(topic, payload, n - 1), Publish(topic, payload, COMMITTED);
      ManyPublishesHappen(sep, topic, payload, n - 1);
      FreshStores(sep);
      StoredExactly(sep, FRESH, 0, 0, init);
      CommittedSnoc(sep, FRESH, init, ev);
      TallySnoc(0, 0, 0, init, ev);
    }
  }

  lemma NothingHappens(sep: Bytes)
    ensures CommittedRun(sep, FRESH, []) && PublishCount([]) == SinceRestart(0, []) == Cut(0, 0, 0, []) == 0
  {
  }

  /** 100999 publishes on an empty store, a restart and one more publish leave 101000 messages stored. */
  lemma RestartLeavesWindow(sep: Bytes, topic: Bytes, payload: Bytes) returns (evs: seq<Event>)
    ensures CommittedRun(sep, FRESH, evs)
    ensures var st := Run(sep, FRESH, evs).state;
            |st.store.msgs| == 101000 && st.publishCount == 1 && 1 in st.store.msgs && !InsideWindow(st)
  {
    hide Run, CommittedRun, Cut, PublishCount, SinceRestart, Numbered, InsideWindow, ManyPublishes;
    var many, ev := ManyPublishes(topic, payload, 100999), Publish(topic, payload, COMMITTED);
    ManyPublishesHappen(sep, topic, payload, 100999);
    FreshStores(sep);
    CommittedSnoc(sep, FRESH, many, Restart);
    TallySnoc(0, 0, 0, many, Restart);
    var restarted := many + [Restart];
    StoredExactly(sep, FRESH, 0, 0, restarted);
    CommittedSnoc(sep, FRESH, restarted, ev);
    TallySnoc(0, 0, 0, restarted, ev);
    evs := restarted + [ev];
    StoredExactly(sep, FRESH, 0, 0, evs);
    InsideWindowIff(sep, FRESH, 0, 0, evs);
  }

  // ----- How many -----

  lemma {:induction false} IntervalSize(xs: set<nat>, lo: int, hi: int)
    requires lo <= hi && forall x :: x in xs ==> lo < x <= hi
    ensures |xs| <= hi - lo
    decreases hi - lo
  {
    if lo == hi {
      assert xs == {};
    } else {
      var rest := xs - {hi};
      IntervalSize(rest, lo, hi - 1);
      assert xs <= rest + {hi};
      assert |xs| <= |rest| + 1;
    }
  }

  /** Without restarts never more than 100999 messages are stored; each restart adds at most 999. */
  lemma StoredCount(sep: Bytes, h: History, base: nat)
    requires Numbered(sep, h, base) && Retained(h)
    ensures |h.state.store.msgs| <= MAX_STORED_MESSAGES + SLACK * (h.restarts + 1)
  {
    CountStep(h.state.publishCount);
    var hi := h.state.current;
    assert Reach(h) <= MAX_STORED_MESSAGES + SLACK * (h.restarts + 1);
    IntervalSize(h.state.store.msgs.Keys, hi - Reach(h), hi);
  }
}
