/**
  * What the store holds after any run from an empty one, read off the events alone: every
  * write may commit or fail, and restarts may come at any point.
  */
module StoreHistory {
  import opened ByteStrings
  import opened KeySpace
  import opened BrokerModel
  import opened Retention

  // ----- Counters -----

  /** Saves that committed; each takes the number after the last. */
  function Saves(evs: seq<Event>): nat {
    if evs == [] then 0
    else Saves(evs[..|evs| - 1]) + if evs[|evs| - 1].Publish? && evs[|evs| - 1].writes.save then 1 else 0
  }

  /** The broker's counter: a publish counts whether or not it is saved, a restart goes back to what was saved. */
  function Counter(evs: seq<Event>): nat {
    if evs == [] then 0
    else if evs[|evs| - 1].Restart? then Saves(evs)
    else Counter(evs[..|evs| - 1]) + if evs[|evs| - 1].Publish? then 1 else 0
  }

  /** Compaction is due at event `j`: a publish, counter above 100000, every thousandth since the last restart. */
  predicate Due(evs: seq<Event>, j: int)
    requires 0 <= j < |evs|
  {
    evs[j].Publish? && Counter(evs[..j + 1]) > 100000 && SinceRestart(0, evs[..j + 1]) % 1000 == 0
  }

  /** Number `s` is old enough to go when compaction is due at `j`. */
  predicate Old(evs: seq<Event>, j: int, s: nat)
    requires 0 <= j < |evs|
  {
    s + 100000 <= Counter(evs[..j + 1])
  }

  // ----- What is on record -----

  predicate PurgesAck(evs: seq<Event>, j: int, s: nat)
    requires 0 <= j < |evs|
  {
    Due(evs, j) && evs[j].writes.purge && Old(evs, j, s)
  }

  /** An ACK of `s` was saved at event `i` and not purged since. */
  ghost predicate AckSince(evs: seq<Event>, client: Bytes, s: nat, i: int) {
    && 0 <= i < |evs| && evs[i] == Ack(client, s, true)
    && forall j :: i < j < |evs| ==> !PurgesAck(evs, j, s)
  }

  ghost predicate OnRecord(evs: seq<Event>, client: Bytes, s: nat) {
    exists i :: AckSince(evs, client, s, i)
  }

  predicate DropsMessage(evs: seq<Event>, j: int, s: nat)
    requires 0 <= j < |evs|
  {
    Due(evs, j) && evs[j].writes.compact && Old(evs, j, s)
  }

  /** Event `i` saved a message as number `s`, and no compaction from then on dropped it. */
  ghost predicate MessageSince(evs: seq<Event>, s: nat, i: int) {
    && 0 <= i < |evs| && evs[i].Publish? && evs[i].writes.save && Saves(evs[..i + 1]) == s
    && forall j :: i <= j < |evs| ==> !DropsMessage(evs, j, s)
  }

  ghost predicate IsStored(evs: seq<Event>, s: nat) {
    exists i :: MessageSince(evs, s, i)
  }

  // ----- One more event -----

  lemma PrefixOf(evs: seq<Event>, ev: Event, j: int)
    requires 0 <= j < |evs|
    ensures (evs + [ev])[j] == evs[j] && (evs + [ev])[..j + 1] == evs[..j + 1]
  {
  }

  lemma SavesSnoc(evs: seq<Event>, ev: Event)
    ensures Saves(evs + [ev]) == Saves(evs) + if ev.Publish? && ev.writes.save then 1 else 0
    ensures Counter(evs + [ev]) ==
            if ev.Restart? then Saves(evs) else Counter(evs) + if ev.Publish? then 1 else 0
    ensures SinceRestart(0, evs + [ev]) ==
            if ev.Restart? then 0 else SinceRestart(0, evs) + if ev.Publish? then 1 else 0
  {
    assert (evs + [ev])[..|evs|] == evs;
  }

  lemma OnRecordSnoc(evs: seq<Event>, ev: Event, client: Bytes, s: nat)
    ensures OnRecord(evs + [ev], client, s) <==>
            ev == Ack(client, s, true) || (OnRecord(evs, client, s) && !PurgesAck(evs + [ev], |evs|, s))
  {
    hide Counter, SinceRestart;
    var all := evs + [ev];
    forall j | 0 <= j < |evs| ensures all[j] == evs[j] && (PurgesAck(all, j, s) <==> PurgesAck(evs, j, s)) {
      PrefixOf(evs, ev, j);
    }
    if ev == Ack(client, s, true) {
      assert AckSince(all, client, s, |evs|);
    } else if OnRecord(evs, client, s) && !PurgesAck(all, |evs|, s) {
      var i :| AckSince(evs, client, s, i);
      assert AckSince(all, client, s, i);
    }
    if OnRecord(all, client, s) {
      var i :| AckSince(all, client, s, i);
      if i < |evs| { assert AckSince(evs, client, s, i); }
    }
  }

  lemma StoredSnoc(evs: seq<Event>, ev: Event, s: nat)
    ensures IsStored(evs + [ev], s) <==>
            && ((ev.Publish? && ev.writes.save && Saves(evs + [ev]) == s) || IsStored(evs, s))
            && !DropsMessage(evs + [ev], |evs|, s)
  {
    hide Counter, SinceRestart, Saves;
    var all := evs + [ev];
    assert all[..|evs| + 1] == all;
    forall j | 0 <= j < |evs|
      ensures all[j] == evs[j] && all[..j + 1] == evs[..j + 1] && (DropsMessage(all, j, s) <==> DropsMessage(evs, j, s))
    {
      PrefixOf(evs, ev, j);
    }
    if !DropsMessage(all, |evs|, s) {
      if ev.Publish? && ev.writes.save && Saves(all) == s {
        assert MessageSince(all, s, |evs|);
      } else if IsStored(evs, s) {
        var i :| MessageSince(evs, s, i);
        assert MessageSince(all, s, i);
      }
    }
    if IsStored(all, s) {
      var i :| MessageSince(all, s, i);
      if i < |evs| { assert MessageSince(evs, s, i); }
    }
  }

  // ----- Every run -----

  lemma {:induction false} SavesGrow(evs: seq<Event>, k: nat)
    requires k <= |evs|
    ensures Saves(evs[..k]) <= Saves(evs)
    decreases |evs|
  {
    if k < |evs| {
      SavesGrow(evs[..|evs| - 1], k);
      assert evs[..|evs| - 1][..k] == evs[..k];
    } else {
      assert evs[..k] == evs;
    }
  }

  lemma StoredWereSaved(evs: seq<Event>, s: nat, i: int)
    requires MessageSince(evs, s, i)
    ensures s <= Saves(evs)
  {
    SavesGrow(evs, i + 1);
  }

  ghost predicate CountersReflect(st: State, evs: seq<Event>) {
    && st.store.last == Saves(evs) <= st.current == Counter(evs) < U64
    && st.publishCount == SinceRestart(0, evs) <= st.current
  }

  ghost predicate AcksReflect(st: State, evs: seq<Event>) {
    forall c, s: nat :: (c, s) in st.store.acks <==> OnRecord(evs, c, s)
  }

  ghost predicate MessagesReflect(sep: Bytes, st: State, evs: seq<Event>) {
    && (forall s: nat :: s in st.store.msgs <==> IsStored(evs, s))
    && (forall s: nat, i :: MessageSince(evs, s, i) ==> RecordedAs(sep, st, evs, s, i))
  }

  /** Number `s` holds the message of event `i`. */
  predicate RecordedAs(sep: Bytes, st: State, evs: seq<Event>, s: nat, i: int) {
    && s in st.store.msgs && 0 <= i < |evs| && evs[i].Publish?
    && st.store.msgs[s] == Record(sep, evs[i].topic, evs[i].payload)
  }

  lemma NextCounters(sep: Bytes, h: History, evs: seq<Event>, ev: Event)
    requires CountersReflect(h.state, evs) && Allowed(h, ev)
    ensures CountersReflect(Next(sep, h, ev).state, evs + [ev])
  {
    hide Saves, Counter, SinceRestart, Record;
    SavesSnoc(evs, ev);
  }

  /** What a publish does to the store, in terms of the events. */
  lemma PublishStores(sep: Bytes, h: History, evs: seq<Event>, ev: Event)
    requires CountersReflect(h.state, evs) && Allowed(h, ev) && ev.Publish?
    ensures var all := evs + [ev];
            var store, store' := h.state.store, Next(sep, h, ev).state.store;
            && (forall c, s: nat :: (c, s) in store'.acks <==> (c, s) in store.acks && !PurgesAck(all, |evs|, s))
            && (forall s: nat :: s in store'.msgs <==>
                  && (s in store.msgs || (ev.writes.save && s == Saves(all))) && !DropsMessage(all, |evs|, s))
            && (forall s: nat :: s in store'.msgs ==>
                  store'.msgs[s] == if ev.writes.save && s == Saves(all) then Record(sep, ev.topic, ev.payload) else store.msgs[s])
  {
    hide Saves, Counter, SinceRestart, Record;
    var all := evs + [ev];
    SavesSnoc(evs, ev);
    assert all[..|evs| + 1] == all;
    NextCounters(sep, h, evs, ev);
  }

  lemma NextAcks(sep: Bytes, h: History, evs: seq<Event>, ev: Event)
    requires CountersReflect(h.state, evs) && AcksReflect(h.state, evs) && Allowed(h, ev)
    ensures AcksReflect(Next(sep, h, ev).state, evs + [ev])
  {
    hide CountersReflect, OnRecord, PurgesAck, DropsMessage, Published;
    var h' := Next(sep, h, ev);
    if ev.Publish? { PublishStores(sep, h, evs, ev); }
    forall c, s: nat ensures (c, s) in h'.state.store.acks <==> OnRecord(evs + [ev], c, s) {
      OnRecordSnoc(evs, ev, c, s);
      OtherEventsKeep(evs, ev, s);
    }
  }

  lemma OtherEventsKeep(evs: seq<Event>, ev: Event, s: nat)
    ensures !ev.Publish? ==> !PurgesAck(evs + [ev], |evs|, s) && !DropsMessage(evs + [ev], |evs|, s)
  {
  }

  lemma NextMessages(sep: Bytes, h: History, evs: seq<Event>, ev: Event)
    requires CountersReflect(h.state, evs) && MessagesReflect(sep, h.state, evs) && Allowed(h, ev)
    ensures MessagesReflect(sep, Next(sep, h, ev).state, evs + [ev])
  {
    hide CountersReflect, IsStored, MessageSince, DropsMessage, PurgesAck, Published, Record, Saves;
    var all, h' := evs + [ev], Next(sep, h, ev);
    if ev.Publish? { PublishStores(sep, h, evs, ev); }
    forall s: nat ensures s in h'.state.store.msgs <==> IsStored(all, s) {
      StoredSnoc(evs, ev, s);
      OtherEventsKeep(evs, ev, s);
    }
    forall s: nat, i | MessageSince(all, s, i) ensures RecordedAs(sep, h'.state, all, s, i) {
      SinceSnoc(evs, ev, s, i);
    }
  }

  /** A message saved since is the one just saved, or an earlier one with a smaller number. */
  lemma SinceSnoc(evs: seq<Event>, ev: Event, s: nat, i: int)
    requires MessageSince(evs + [ev], s, i)
    ensures IsStored(evs + [ev], s) && 0 <= i <= |evs|
    ensures if i == |evs| then ev.Publish? && ev.writes.save && s == Saves(evs + [ev])
            else MessageSince(evs, s, i) && (evs + [ev])[i] == evs[i] && (ev.Publish? && ev.writes.save ==> s < Saves(evs + [ev]))
  {
    hide Counter, SinceRestart, Saves;
    var all := evs + [ev];
    assert all[..|evs| + 1] == all;
    SavesSnoc(evs, ev);
    if i < |evs| {
      forall j | 0 <= j < |evs|
        ensures all[j] == evs[j] && all[..j + 1] == evs[..j + 1] && (DropsMessage(all, j, s) <==> DropsMessage(evs, j, s))
      {
        PrefixOf(evs, ev, j);
      }
      assert MessageSince(evs, s, i);
      StoredWereSaved(evs, s, i);
    }
  }

  /**
    * After every run on an empty store, whatever commits and whenever the broker restarts: an
    * ACK is on record if and only if one was saved and no compaction since, due and with its
    * purge committed, found it 100000 or more behind the counter; a message is stored, under the
    * number of its save, if and only if its save committed and no compaction from then on did;
    * and it is stored as it was published.
    */
  lemma {:induction false} StoreIsHistory(sep: Bytes, evs: seq<Event>)
    requires ValidRun(sep, FRESH, evs)
    ensures var st := Run(sep, FRESH, evs).state;
            CountersReflect(st, evs) && AcksReflect(st, evs) && MessagesReflect(sep, st, evs)
    decreases |evs|
  {
    hide CountersReflect, AcksReflect, MessagesReflect, Next, Allowed;
    if evs == [] {
      NothingOnRecord(sep);
    } else {
      var n := |evs| - 1;
      StoreIsHistory(sep, evs[..n]);
      var h := Run(sep, FRESH, evs[..n]);
      NextCounters(sep, h, evs[..n], evs[n]);
      NextAcks(sep, h, evs[..n], evs[n]);
      NextMessages(sep, h, evs[..n], evs[n]);
      assert evs == evs[..n] + [evs[n]];
    }
  }

  lemma NothingOnRecord(sep: Bytes)
    ensures CountersReflect(FRESH.state, []) && AcksReflect(FRESH.state, []) && MessagesReflect(sep, FRESH.state, [])
  {
  }
}
