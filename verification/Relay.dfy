/**
  * Sessions and broker together: what sessions publish, as the broker numbers, stores and
  * replays it.
  */
module Relay {
  import opened ByteStrings
  import opened Framing
  import opened KeySpace
  import opened RangeScan
  import opened BrokerModel
  import opened Numbering
  import opened Replay
  import opened CodedRecords
  import Admission
  import S = SessionRuns
  import B = BinaryProtocol
  import R = Resp
  import K = KeyStore

  const NOBODY := S.World(map[], K.EMPTY, [])

  /** The broker's publishes are those of the sessions, in order. */
  ghost predicate Feeds(log: seq<S.Entry>, sent: seq<Sent>) {
    |log| == |sent| && forall i :: 0 <= i < |log| ==> sent[i].topic == log[i].topic && sent[i].payload == log[i].data
  }

  /** A run of the broker fed by a run of sessions, both from nothing. */
  ghost predicate FedRun(sep: Bytes, evs: seq<Event>, verify: Admission.Verify, steps: seq<S.Step>) {
    && CommittedRun(sep, FRESH, evs) && S.AllReceived(steps) && |steps| < U64
    && Feeds(S.RunAll(NOBODY, verify, steps).log, Run(sep, FRESH, evs).sent)
  }

  lemma FedRunFacts(sep: Bytes, evs: seq<Event>, verify: Admission.Verify, steps: seq<S.Step>)
    requires FedRun(sep, evs, verify, steps)
    ensures Numbered(sep, Run(sep, FRESH, evs), 0) && S.SoundLog(S.RunAll(NOBODY, verify, steps), verify)
  {
    hide S.AllReceived, S.RunAll, Run, CommittedRun, Feeds;
    CommittedRunsAreNumbered(sep, FRESH, 0, evs);
    S.PublishedMessagesAreSound(NOBODY, verify, steps);
  }

  // ----- Replay as coded -----

  /** What a session publishes does not start with a NUL. */
  lemma SoundStartsNonNul(e: S.Entry, n: nat, verify: Admission.Verify)
    requires S.Sound(e, n, verify)
    ensures e.data != [] && e.data[0] != 0
  {
    hide B.Parse, R.Parse, S.Sound;
    S.ReadableByOwnProtocolIff(e, n, verify);
    NulDoesNotParse(e.data);
  }

  lemma NulDoesNotParse(b: Bytes)
    ensures B.Parse(b).Parsed? || R.Parse(b).Parsed? ==> b != [] && b[0] != 0
  {
  }

  /**
    * With records as coded, over every run of sessions of both protocols feeding the broker, and
    * for every scan: no stored message is replayed on the topic it was published on.
    */
  lemma CodedReplayMissesTopic(evs: seq<Event>, verify: Admission.Verify, steps: seq<S.Step>, db: map<Bytes, Bytes>,
                               from: nat, to: nat, skip: set<nat>, topic: Bytes)
    requires FedRun(CODED_SEPARATOR, evs, verify, steps)
    requires Represents(db, Run(CODED_SEPARATOR, FRESH, evs).state.store)
    ensures var h := Run(CODED_SEPARATOR, FRESH, evs);
            forall l :: l in Sends(db, from, to, topic, skip) ==>
              1 <= l.seqId <= |h.sent| && h.sent[l.seqId - 1].topic != topic
  {
    hide Represents, Sends, InScan, Splits, PayloadOf, Run, CommittedRun, S.AllReceived, S.RunAll, S.Sound, S.FramesBy, Record, DecLess;
    FedRunFacts(CODED_SEPARATOR, evs, verify, steps);
    var h, log := Run(CODED_SEPARATOR, FRESH, evs), S.RunAll(NOBODY, verify, steps).log;
    ReplaySendsIff(db, h.state.store, from, to, topic, skip);
    forall l | l in Sends(db, from, to, topic, skip)
      ensures 1 <= l.seqId <= |h.sent| && h.sent[l.seqId - 1].topic != topic
    {
      var s := l.seqId;
      assert s in h.state.store.msgs && SentAs(Sends(db, from, to, topic, skip), s);
      CodedReplayIff(h, db, from, to, skip);
      SoundStartsNonNul(log[s - 1], S.FramesBy(log[..s], log[s - 1].origin.session), verify);
    }
  }

  // ----- The number in a delivered frame -----

  lemma {:induction false} AllByFrames(log: seq<S.Entry>, x: nat)
    ensures S.FramesBy(log, x) == |log| <==>
            forall j :: 0 <= j < |log| ==> log[j].origin.cause.ByFrame? && log[j].origin.session == x
    decreases |log|
  {
    if log != [] {
      var n := |log| - 1;
      AllByFrames(log[..n], x);
      assert log == log[..n] + [log[n]];
    }
  }

  lemma FrameCarriesNumber(e: S.Entry, n: nat, verify: Admission.Verify)
    requires S.Sound(e, n, verify) && e.origin.cause.ByFrame?
    ensures B.Parse(e.data).Parsed? && B.Parse(e.data).value.sequence == n
  {
    hide B.Parse, Admission.Admitted;
    assert B.Parse(e.data + []) == Parsed(S.Relayed(e.origin.cause.frame, n), |e.data|);
    assert e.data + [] == e.data;
  }

  /**
    * Over every run of sessions feeding the broker, a frame delivered for a frame carries the
    * number the broker gave the message if and only if everything published before it was
    * published by frames of the same session.
    */
  lemma FrameNumberIsBrokersIff(sep: Bytes, evs: seq<Event>, verify: Admission.Verify, steps: seq<S.Step>, i: nat)
    requires FedRun(sep, evs, verify, steps)
    requires var log := S.RunAll(NOBODY, verify, steps).log;
             i < |log| && log[i].origin.cause.ByFrame?
    ensures var log, sent := S.RunAll(NOBODY, verify, steps).log, Run(sep, FRESH, evs).sent;
            && i < |sent| && B.Parse(log[i].data).Parsed?
            && (B.Parse(log[i].data).value.sequence == sent[i].seqId <==>
                  forall j :: 0 <= j < i ==>
                    log[j].origin.cause.ByFrame? && log[j].origin.session == log[i].origin.session)
  {
    hide Run, CommittedRun, S.AllReceived, S.RunAll, S.FramesBy, S.Sound, B.Parse, Record;
    FedRunFacts(sep, evs, verify, steps);
    var log := S.RunAll(NOBODY, verify, steps).log;
    var e, x := log[i], log[i].origin.session;
    var n := S.FramesBy(log[..i + 1], x);
    FrameCarriesNumber(e, n, verify);
    AllByFrames(log[..i], x);
    assert log[..i + 1] == log[..i] + [e];
    S.FramesBySnoc(log[..i], e, x);
  }

  // ----- Two sessions -----

  /** A publish frame off the secure topics adds its entry. */
  lemma PlainPublishAdds(w: S.World, verify: Admission.Verify, x: nat, f: B.Frame)
    requires f.command == B.CMD_PUBLISH && !(Admission.SECURE <= f.topic)
    ensures var w' := S.Advance(w, verify, PublishStep(x, f));
            && |w'.log| == |w.log| + 1 && w'.log[..|w.log|] == w.log
            && w'.log[|w.log|].origin.session == x && w'.log[|w.log|].origin.cause == S.ByFrame(f)
  {
    hide B.Serialize, Admission.SignatureRequired, B.AckFrame, S.Publishes, Admission.Verified;
    var o := S.Origin(x, S.ByFrame(f), w.registry, w.registry);
    var effects := Admission.Handle(S.DeskOf(w, x), w.registry, w.registry, verify, f).effects;
    S.OnePublish(effects, o);
    assert S.Advance(w, verify, PublishStep(x, f)).log == w.log + S.Publishes(effects, o);
  }

  function PublishStep(x: nat, f: B.Frame): S.Step {
    S.OnFrame(x, f, 0, Admission.Meanwhile([], []))
  }

  function PublishFrame(topic: Bytes, payload: Bytes): B.Frame {
    B.Plain(B.CMD_PUBLISH, topic, payload, 0)
  }

  lemma PublishFrameArrives(topic: Bytes, payload: Bytes)
    requires |topic| <= B.MAX_TOPIC_LEN && |payload| <= B.MAX_PAYLOAD_LEN
    ensures S.FrameReceived(PublishFrame(topic, payload))
  {
    hide B.Parse, B.Serialize;
    var f := PublishFrame(topic, payload);
    B.ParseSerialized(f, []);
    assert B.Serialize(f) + [] == B.Serialize(f);
    assert S.IsFrame(B.Serialize(f), f);
  }

  lemma PublishExtends(sep: Bytes, evs: seq<Event>, e: S.Entry) returns (all: seq<Event>)
    requires CommittedRun(sep, FRESH, evs) && Run(sep, FRESH, evs).state.current + 1 < U64
    ensures CommittedRun(sep, FRESH, all)
    ensures var h, h' := Run(sep, FRESH, evs), Run(sep, FRESH, all);
            h'.state.current == h.state.current + 1 && h'.sent == h.sent + [Sent(h'.state.current, e.topic, e.data)]
  {
    hide CommittedRun, Run;
    var ev := Publish(e.topic, e.data, COMMITTED);
    CommittedSnoc(sep, FRESH, evs, ev);
    all := evs + [ev];
  }

  lemma TwoPublishesFeed(sep: Bytes, a: S.Entry, b: S.Entry) returns (evs: seq<Event>)
    ensures CommittedRun(sep, FRESH, evs) && Feeds([a, b], Run(sep, FRESH, evs).sent)
  {
    hide Next;
    assert CommittedRun(sep, FRESH, []) && Run(sep, FRESH, []) == FRESH;
    hide CommittedRun, Run;
    evs := PublishExtends(sep, [], a);
    evs := PublishExtends(sep, evs, b);
  }

  /** Two sessions publish one message each: the second is delivered with number 1, the broker's is 2. */
  lemma SecondSessionMisnumbers(sep: Bytes, verify: Admission.Verify, topic: Bytes, payload: Bytes)
      returns (evs: seq<Event>, steps: seq<S.Step>)
    requires |topic| <= B.MAX_TOPIC_LEN && |payload| <= B.MAX_PAYLOAD_LEN && !(Admission.SECURE <= topic)
    ensures FedRun(sep, evs, verify, steps)
    ensures var log, sent := S.RunAll(NOBODY, verify, steps).log, Run(sep, FRESH, evs).sent;
            && |log| == |sent| == 2 && sent[1].seqId == 2
            && B.Parse(log[1].data).Parsed? && B.Parse(log[1].data).value.sequence != 2
  {
    hide S.Advance, Run, CommittedRun, S.FrameReceived, B.Parse;
    var f := PublishFrame(topic, payload);
    PublishFrameArrives(topic, payload);
    steps := [PublishStep(0, f), PublishStep(1, f)];
    assert steps[..1] == [PublishStep(0, f)] && steps[..1][..0] == [];
    var w1 := S.Advance(NOBODY, verify, steps[0]);
    var w2 := S.Advance(w1, verify, steps[1]);
    assert S.RunAll(NOBODY, verify, steps[..1][..0]) == NOBODY;
    assert S.RunAll(NOBODY, verify, steps[..1]) == w1;
    assert S.RunAll(NOBODY, verify, steps) == w2;
    PlainPublishAdds(NOBODY, verify, 0, f);
    PlainPublishAdds(w1, verify, 1, f);
    evs := TwoPublishesFeed(sep, w2.log[0], w2.log[1]);
    assert w2.log == [w2.log[0], w2.log[1]] && w2.log[0] == w1.log[0];
    assert FedRun(sep, evs, verify, steps);
    FedRunFacts(sep, evs, verify, steps);
    FrameNumberIsBrokersIff(sep, evs, verify, steps, 1);
  }
}
