/**
  * The record separator as coded, which is empty: what becomes of stored messages and of
  * their replay.
  */
module CodedRecords {
  import opened ByteStrings
  import opened KeySpace
  import opened LmdbStorage
  import opened RangeScan
  import opened BrokerModel
  import opened Numbering
  import opened Replay

  /**
    * As coded, a message reads back under the topic it was published on if and only if the
    * topic has no NUL and the message starts with one, which is then lost.
    */
  lemma CodedSplitsIff(topic: Bytes, data: Bytes)
    ensures Splits(Record(CODED_SEPARATOR, topic, data), topic) <==> 0 !in topic && data != [] && data[0] == 0
    ensures Splits(Record(CODED_SEPARATOR, topic, data), topic) ==>
              PayloadOf(Record(CODED_SEPARATOR, topic, data)) == data[1..]
  {
    hide Find;
    var record := Record(CODED_SEPARATOR, topic, data);
    assert record == topic + data;
    FindSpec(record, 0);
    var k := Find(record, 0);
    if Splits(record, topic) {
      assert record[..k] == topic;
      assert data[0] == record[k] && record[k + 1..] == data[1..];
    }
    if 0 !in topic && data != [] && data[0] == 0 {
      assert record == topic + [0] + data[1..] && record[..|topic|] == topic;
      FindAfter(topic, 0, data[1..]);
    }
  }

  /** Message `s` of the history went out on its own topic in a replay. */
  ghost predicate SentAs(sent: seq<Loaded>, s: nat) {
    exists l :: l in sent && l.seqId == s
  }

  /**
    * As coded, over every committed run and for every scan: a stored message is replayed on the
    * topic it was published on if and only if the topic has no NUL, the message starts with
    * one, and the scan reaches it and does not pass it over; what is sent lacks that byte.
    */
  lemma CodedReplayIff(h: History, db: map<Bytes, Bytes>, from: nat, to: nat, skip: set<nat>)
    requires Numbered(CODED_SEPARATOR, h, 0) && Represents(db, h.state.store)
    ensures forall s: nat :: s in h.state.store.msgs ==>
              && 1 <= s <= |h.sent|
              && CodedReplay(h, Sends(db, from, to, h.sent[s - 1].topic, skip), from, to, skip, s)
  {
    hide Represents, Sends, CodedReplay;
    forall s: nat | s in h.state.store.msgs
      ensures 1 <= s <= |h.sent| && CodedReplay(h, Sends(db, from, to, h.sent[s - 1].topic, skip), from, to, skip, s)
    {
      CodedMessageReplay(h, db, from, to, skip, s);
    }
  }

  ghost predicate CodedReplay(h: History, sent: seq<Loaded>, from: nat, to: nat, skip: set<nat>, s: nat)
    requires 1 <= s <= |h.sent|
  {
    var m := h.sent[s - 1];
    && (SentAs(sent, s) <==> && 0 !in m.topic && m.payload != [] && m.payload[0] == 0
                             && s !in skip && InScan(h.state.store.msgs, from, to, s))
    && forall l :: l in sent && l.seqId == s ==> m.payload != [] && l.payload == m.payload[1..]
  }

  lemma CodedMessageReplay(h: History, db: map<Bytes, Bytes>, from: nat, to: nat, skip: set<nat>, s: nat)
    requires Numbered(CODED_SEPARATOR, h, 0) && Represents(db, h.state.store) && s in h.state.store.msgs
    ensures 1 <= s <= |h.sent| && CodedReplay(h, Sends(db, from, to, h.sent[s - 1].topic, skip), from, to, skip, s)
  {
    hide Represents, Sends, InScan, Splits, PayloadOf, DecLess, Record;
    var m := h.sent[s - 1];
    var msgs := h.state.store.msgs;
    var sent := Sends(db, from, to, m.topic, skip);
    ReplaySendsIff(db, h.state.store, from, to, m.topic, skip);
    CodedSplitsIff(m.topic, m.payload);
    assert msgs[s] == Record(CODED_SEPARATOR, m.topic, m.payload);
    if OnTopic(msgs, s, m.topic) {
      assert MessageAt(msgs, s, m.topic).seqId == s;
    }
    if SentAs(sent, s) {
      var l :| l in sent && l.seqId == s;
      assert l == MessageAt(msgs, s, m.topic);
    }
  }
}
