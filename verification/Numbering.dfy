/**
  * Sequence numbers over whole runs: the broker's counter and the store's own counter,
  * the numbers publish returns, and where messages are stored.
  */
module Numbering {
  import opened ByteStrings
  import opened KeySpace
  import opened BrokerModel

  /** Counter and store agree, and every publish since `base` got the next number. */
  ghost predicate Numbered(sep: Bytes, h: History, base: nat) {
    && h.state.store.last == h.state.current == base + |h.sent| < U64
    && (forall i :: 0 <= i < |h.sent| ==> h.sent[i].seqId == base + 1 + i)
    && (forall s :: s in h.state.store.msgs ==> 1 <= s <= h.state.current)
    && (forall s :: s in h.state.store.msgs && s > base ==>
          var m := h.sent[s - base - 1];
          h.state.store.msgs[s] == Record(sep, m.topic, m.payload))
  }

  lemma NextKeepsNumbered(sep: Bytes, h: History, base: nat, ev: Event)
    requires Numbered(sep, h, base) && Allowed(h, ev) && Commits(ev)
    ensures Numbered(sep, Next(sep, h, ev), base)
  {
  }

  /**
    * In every run whose writes commit, restarts included, the store's counter equals the
    * broker's, the numbers returned are gap-free and never reused, and a stored message
    * lies under the number its publish returned.
    */
  lemma {:induction false} CommittedRunsAreNumbered(sep: Bytes, h: History, base: nat, evs: seq<Event>)
    requires Numbered(sep, h, base) && CommittedRun(sep, h, evs)
    ensures Numbered(sep, Run(sep, h, evs), base)
    decreases |evs|
  {
    if evs != [] {
      var n := |evs| - 1;
      CommittedPrefix(sep, h, evs);
      CommittedRunsAreNumbered(sep, h, base, evs[..n]);
      NextKeepsNumbered(sep, Run(sep, h, evs[..n]), base, evs[n]);
    }
  }

  // ----- When saves may fail -----

  ghost predicate StoreNotAhead(h: History) {
    h.state.store.last <= h.state.current < U64
  }

  lemma {:induction false} StoreNeverAhead(sep: Bytes, h: History, evs: seq<Event>)
    requires StoreNotAhead(h) && ValidRun(sep, h, evs)
    ensures StoreNotAhead(Run(sep, h, evs))
    decreases |evs|
  {
    if evs != [] {
      StoreNeverAhead(sep, h, evs[..|evs| - 1]);
    }
  }

  // ----- Failed saves, and what they lead to -----

  predicate FailedSave(ev: Event) { ev.Publish? && !ev.writes.save }

  /** A save has failed since the last restart. */
  ghost predicate FailingSince(evs: seq<Event>, i: int) {
    0 <= i < |evs| && FailedSave(evs[i]) && forall j :: i < j < |evs| ==> !evs[j].Restart?
  }

  ghost predicate Failing(evs: seq<Event>) {
    exists i :: FailingSince(evs, i)
  }

  /** A failed save has been followed by a restart: a number handed out is forgotten. */
  ghost predicate ForgottenAt(evs: seq<Event>, i: int, j: int) {
    0 <= i < j < |evs| && FailedSave(evs[i]) && evs[j].Restart?
  }

  ghost predicate Forgotten(evs: seq<Event>) {
    exists i, j :: ForgottenAt(evs, i, j)
  }

  /** A failed save, later a restart, later a publish. */
  ghost predicate ReusedAt(evs: seq<Event>, i: int, j: int, k: int) {
    ForgottenAt(evs, i, j) && j < k < |evs| && evs[k].Publish?
  }

  ghost predicate Reuses(evs: seq<Event>) {
    exists i, j, k :: ReusedAt(evs, i, j, k)
  }

  lemma FailingSnoc(evs: seq<Event>, ev: Event)
    ensures Failing(evs + [ev]) <==> FailedSave(ev) || (Failing(evs) && !ev.Restart?)
  {
    var all := evs + [ev];
    if FailedSave(ev) {
      assert FailingSince(all, |evs|);
    } else if Failing(evs) && !ev.Restart? {
      var i :| FailingSince(evs, i);
      assert FailingSince(all, i);
    } else if Failing(all) {
      var i :| FailingSince(all, i);
      assert i < |evs| && !all[|evs|].Restart?;
      forall j | i < j < |evs| ensures !evs[j].Restart? {
        assert !all[j].Restart?;
      }
      assert FailingSince(evs, i);
    }
  }

  lemma ForgottenSnoc(evs: seq<Event>, ev: Event)
    ensures Forgotten(evs + [ev]) <==> Forgotten(evs) || (ev.Restart? && Failing(evs))
  {
    var all := evs + [ev];
    if Forgotten(evs) {
      var i, j :| ForgottenAt(evs, i, j);
      assert ForgottenAt(all, i, j);
    }
    if ev.Restart? && Failing(evs) {
      var i :| FailingSince(evs, i);
      assert ForgottenAt(all, i, |evs|);
    }
    if Forgotten(all) {
      var i, j :| ForgottenAt(all, i, j);
      if j < |evs| {
        assert ForgottenAt(evs, i, j);
      } else if !Forgotten(evs) {
        forall k | i < k < |evs| ensures !evs[k].Restart? {
          assert !ForgottenAt(evs, i, k);
        }
        assert FailingSince(evs, i);
      }
    }
  }

  lemma ReusesSnoc(evs: seq<Event>, ev: Event)
    ensures Reuses(evs + [ev]) <==> Reuses(evs) || (ev.Publish? && Forgotten(evs))
  {
    var all := evs + [ev];
    if Reuses(evs) {
      var i, j, k :| ReusedAt(evs, i, j, k);
      assert ReusedAt(all, i, j, k);
    }
    if ev.Publish? && Forgotten(evs) {
      var i, j :| ForgottenAt(evs, i, j);
      assert ReusedAt(all, i, j, |evs|);
    }
    if Reuses(all) {
      var i, j, k :| ReusedAt(all, i, j, k);
      assert ForgottenAt(evs, i, j);
      if k < |evs| { assert ReusedAt(evs, i, j, k); }
    }
  }

  ghost predicate DistinctNumbers(sent: seq<Sent>) {
    forall i, j :: 0 <= i < j < |sent| ==> sent[i].seqId != sent[j].seqId
  }

  /** The counters of a run of arbitrary writes, by what has failed in it. */
  ghost predicate Tracked(h: History, base: nat, evs: seq<Event>) {
    && base <= h.state.store.last <= h.state.current < U64
    && (h.state.store.last < h.state.current <==> Failing(evs))
    && (forall s :: s in h.state.store.msgs ==> s <= h.state.store.last)
    && (!Reuses(evs) ==>
          && (forall i :: 0 <= i < |h.sent| ==> h.sent[i].seqId == base + 1 + i)
          && h.state.current <= base + |h.sent|
          && (h.state.current < base + |h.sent| <==> Forgotten(evs)))
    && (DistinctNumbers(h.sent) <==> !Reuses(evs))
  }

  /** Without reuse so far, a publish reuses a number exactly when one was forgotten. */
  lemma PublishDistinct(sent: seq<Sent>, next: Sent, base: nat)
    requires forall i :: 0 <= i < |sent| ==> sent[i].seqId == base + 1 + i
    requires base < next.seqId <= base + |sent| + 1
    ensures DistinctNumbers(sent + [next]) <==> next.seqId == base + |sent| + 1
  {
    var all := sent + [next];
    if next.seqId <= base + |sent| {
      var i := next.seqId - base - 1;
      assert all[i].seqId == all[|sent|].seqId;
    }
  }

  lemma NotDistinctSnoc(sent: seq<Sent>, next: Sent)
    requires !DistinctNumbers(sent)
    ensures !DistinctNumbers(sent + [next])
  {
    var i, j :| 0 <= i < j < |sent| && sent[i].seqId == sent[j].seqId;
    assert (sent + [next])[i].seqId == (sent + [next])[j].seqId;
  }

  lemma NextKeepsTracked(sep: Bytes, h: History, base: nat, evs: seq<Event>, ev: Event)
    requires Tracked(h, base, evs) && Allowed(h, ev)
    ensures Tracked(Next(sep, h, ev), base, evs + [ev])
  {
    FailingSnoc(evs, ev);
    ForgottenSnoc(evs, ev);
    ReusesSnoc(evs, ev);
    hide Failing, Forgotten, Reuses, Record, DistinctNumbers;
    if ev.Publish? {
      var next := Sent(h.state.current + 1, ev.topic, ev.payload);
      if Reuses(evs) {
        NotDistinctSnoc(h.sent, next);
      } else {
        PublishDistinct(h.sent, next, base);
      }
    }
  }

  lemma {:induction false} RunsAreTracked(sep: Bytes, h: History, base: nat, evs: seq<Event>)
    requires Numbered(sep, h, base) && ValidRun(sep, h, evs)
    ensures Tracked(Run(sep, h, evs), base, evs)
    decreases |evs|
  {
    if evs == [] {
      assert !Failing(evs) && !Forgotten(evs) && !Reuses(evs);
    } else {
      hide Tracked, Numbered;
      var n := |evs| - 1;
      RunsAreTracked(sep, h, base, evs[..n]);
      NextKeepsTracked(sep, Run(sep, h, evs[..n]), base, evs[..n], evs[n]);
      assert evs == evs[..n] + [evs[n]];
    }
  }

  /**
    * Over every run, whatever commits: no number is handed out twice if and only if no
    * failed save is followed by a restart that is followed by a publish; and the store's
    * counter is behind the broker's exactly while a save has failed since the last restart.
    */
  lemma NumbersReusedIff(sep: Bytes, h: History, base: nat, evs: seq<Event>)
    requires Numbered(sep, h, base) && ValidRun(sep, h, evs)
    ensures DistinctNumbers(Run(sep, h, evs).sent) <==> !Reuses(evs)
    ensures Run(sep, h, evs).state.store.last < Run(sep, h, evs).state.current <==> Failing(evs)
  {
    RunsAreTracked(sep, h, base, evs);
  }

  /** A failed save, a restart and a publish on an empty store: number 1 is handed out twice. */
  lemma FailedSaveReusesNumber(sep: Bytes, topic: Bytes, payload: Bytes, other: Bytes) returns (evs: seq<Event>)
    ensures ValidRun(sep, FRESH, evs) && Reuses(evs)
    ensures Run(sep, FRESH, evs).sent == [Sent(1, topic, payload), Sent(1, topic, other)]
  {
    hide Record;
    var lost, again := Publish(topic, payload, Writes(false, true, true)), Publish(topic, other, COMMITTED);
    evs := [lost, Restart, again];
    assert ReusedAt(evs, 0, 1, 2);
    assert evs[..2] == [lost, Restart] && evs[..2][..1] == [lost] && evs[..2][..1][..0] == [];
    var h1 := Next(sep, FRESH, lost);
    var h2 := Next(sep, h1, Restart);
    assert h1.sent == [Sent(1, topic, payload)] && h1.state.store.last == 0;
    assert h2.sent == h1.sent && h2.state.current == 0;
    assert Run(sep, FRESH, evs[..2][..1]) == h1 && ValidRun(sep, FRESH, evs[..2][..1]);
    assert Run(sep, FRESH, evs[..2]) == h2 && ValidRun(sep, FRESH, evs[..2]);
    assert Run(sep, FRESH, evs) == Next(sep, h2, again);
  }

  /**
    * After every run, a publish whose save commits can be found under the number it
    * returns if and only if no save has failed since the last restart.
    */
  lemma FoundUnderReturnedNumberIff(sep: Bytes, h: History, base: nat, evs: seq<Event>,
                                    topic: Bytes, payload: Bytes, writes: Writes)
    requires Numbered(sep, h, base) && ValidRun(sep, h, evs) && writes.save
    requires Run(sep, h, evs).state.current + 1 < U64
    ensures var after := Next(sep, Run(sep, h, evs), Publish(topic, payload, writes)).state;
            (after.current in after.store.msgs && after.store.msgs[after.current] == Record(sep, topic, payload))
            <==> !Failing(evs)
  {
    RunsAreTracked(sep, h, base, evs);
    hide Failing, Reuses, Forgotten, Record;
  }

  /** After one failed save, a message is stored under the number before the one returned. */
  lemma FailedSaveMisplaces(sep: Bytes, topic: Bytes, payload: Bytes, other: Bytes)
    ensures var lost := [Publish(topic, payload, Writes(false, true, true))];
            var after := Next(sep, Run(sep, FRESH, lost), Publish(topic, other, COMMITTED)).state;
            && ValidRun(sep, FRESH, lost) && after.current == 2
            && after.store.msgs == map[1 := Record(sep, topic, other)]
  {
    hide Record;
    var lost := [Publish(topic, payload, Writes(false, true, true))];
    assert lost[..0] == [] && Run(sep, FRESH, lost[..0]) == FRESH;
    assert Run(sep, FRESH, lost) == Next(sep, FRESH, lost[0]);
  }
}
