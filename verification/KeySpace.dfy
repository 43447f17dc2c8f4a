/**
  * The flat key space of the store: `last_seq`, `msg:<seq>` and `ack:<client>:<seq>`,
  * the message record, and what a store of such keys represents.
  */
module KeySpace {
  import opened ByteStrings
  import opened Decimal

  const MSG: Bytes := [109, 115, 103, 58]                       // "msg:"
  const ACK: Bytes := [97, 99, 107, 58]                         // "ack:"
  const LAST_SEQ: Bytes := [108, 97, 115, 116, 95, 115, 101, 113]  // "last_seq"
  const ACK_FLAG: Bytes := [49]                                 // "1"

  function MsgKey(s: nat): Bytes { MSG + Dec(s) }

  function AckPrefix(client: Bytes): Bytes { ACK + client + [COLON] }

  function AckKey(client: Bytes, s: nat): Bytes { AckPrefix(client) + Dec(s) }

  // ----- Reading keys back -----

  /** The number in a message key, as std::stoull reads it. */
  function MsgSeq(k: Bytes): Option<nat> {
    if MSG <= k then Stoull(k[4..]) else None
  }

  /** The number after the last colon of an ACK key. */
  function AckSeq(k: Bytes): Option<nat> {
    match FindLast(k, COLON)
    case None => None
    case Some(c) => if c > 3 then Stoull(k[c + 1..]) else None
  }

  /** The client between `ack:` and the last colon. */
  function AckClient(k: Bytes): Bytes {
    match FindLast(k, COLON)
    case None => []
    case Some(c) => if c > 3 then k[4..c] else []
  }

  lemma MsgKeyReads(s: nat)
    requires s < U64
    ensures MSG <= MsgKey(s) && !(ACK <= MsgKey(s)) && MsgKey(s) != LAST_SEQ
    ensures MsgSeq(MsgKey(s)) == Some(s)
  {
    var k := MsgKey(s);
    assert k[0] == 109;
    assert k[4..] == Dec(s) && Dec(s) + [] == Dec(s);
    StoullDec(s, []);
  }

  lemma AckKeyReads(client: Bytes, s: nat)
    requires s < U64
    ensures ACK <= AckKey(client, s) && !(MSG <= AckKey(client, s)) && AckKey(client, s) != LAST_SEQ
    ensures AckSeq(AckKey(client, s)) == Some(s) && AckClient(AckKey(client, s)) == client
  {
    var k := AckKey(client, s);
    assert k == (ACK + client) + [COLON] + Dec(s);
    DecHasNoColon(s);
    FindLastBefore(ACK + client, COLON, Dec(s));
    var c := |ACK + client|;
    assert k[c + 1..] == Dec(s) && Dec(s) + [] == Dec(s);
    assert k[4..c] == client;
    StoullDec(s, []);
    assert k[0] == 97 && k[..4] == ACK;
  }

  lemma MsgKeyOrder(s: nat, t: nat)
    ensures Less(MsgKey(s), MsgKey(t)) <==> Less(Dec(s), Dec(t))
  {
    LessCommonPrefix(MSG, Dec(s), Dec(t));
  }

  // ----- Message records -----

  /** The separator the documentation gives, and the one the code produces. */
  const DOCUMENTED_SEPARATOR: Bytes := [0]
  const CODED_SEPARATOR: Bytes := []

  predicate IsSeparator(sep: Bytes) { sep == DOCUMENTED_SEPARATOR || sep == CODED_SEPARATOR }

  function Record(sep: Bytes, topic: Bytes, payload: Bytes): Bytes { topic + sep + payload }

  datatype Message = Message(topic: Bytes, payload: Bytes)

  /** A record is split at its first NUL; a record without one is skipped on loading. */
  function ParseRecord(data: Bytes): Option<Message> {
    var sep := Find(data, 0);
    if sep == |data| then None else Some(Message(data[..sep], data[sep + 1..]))
  }

  /** A record reads back as it was written exactly when the separator is there and the topic has no NUL. */
  lemma RecordRoundTrip(sep: Bytes, topic: Bytes, payload: Bytes)
    requires IsSeparator(sep)
    ensures ParseRecord(Record(sep, topic, payload)) == Some(Message(topic, payload))
            <==> sep == DOCUMENTED_SEPARATOR && 0 !in topic
  {
    var data := Record(sep, topic, payload);
    FindSpec(data, 0);
    if sep == DOCUMENTED_SEPARATOR && 0 !in topic {
      FindAfter(topic, 0, payload);
      assert data[..|topic|] == topic && data[|topic| + 1..] == payload;
    }
  }

  /**
    * As coded, a record is cut at the first NUL of the payload: a NUL-free topic comes
    * back extended by the payload's bytes before that NUL, and the payload shortened.
    */
  lemma CodedRecordReadsAs(topic: Bytes, head: Bytes, tail: Bytes)
    requires 0 !in topic && 0 !in head
    ensures ParseRecord(Record(CODED_SEPARATOR, topic, head + [0] + tail)) == Some(Message(topic + head, tail))
  {
    var data := Record(CODED_SEPARATOR, topic, head + [0] + tail);
    assert data == (topic + head) + [0] + tail;
    FindAfter(topic + head, 0, tail);
    assert data[..|topic + head|] == topic + head && data[|topic + head| + 1..] == tail;
  }

  // ----- What a store represents -----

  /** Last number written, raw message records by number, and ACKs. */
  datatype Store = Store(last: nat, msgs: map<nat, Bytes>, acks: set<(Bytes, nat)>)

  const EMPTY_STORE := Store(0, map[], {})

  /** An entry is accounted for by the abstract store. */
  ghost predicate Explained(k: Bytes, v: Bytes, a: Store) {
    if k == LAST_SEQ then v == BigEndian(a.last, 8)
    else if MSG <= k then
      MsgSeq(k).Some? && MsgSeq(k).value in a.msgs && k == MsgKey(MsgSeq(k).value) && v == a.msgs[MsgSeq(k).value]
    else
      AckSeq(k).Some? && (AckClient(k), AckSeq(k).value) in a.acks && k == AckKey(AckClient(k), AckSeq(k).value)
  }

  ghost predicate Represents(db: map<Bytes, Bytes>, a: Store) {
    && a.last < U64
    && (LAST_SEQ !in db ==> a.last == 0)
    && (forall k :: k in db ==> Explained(k, db[k], a))
    && (forall s :: s in a.msgs ==> s < U64 && MsgKey(s) in db)
    && (forall c, s :: (c, s) in a.acks ==> s < U64 && AckKey(c, s) in db)
  }

  // ----- Operations on abstract stores -----

  function Saved(a: Store, record: Bytes): Store {
    var next := Add64(a.last, 1);
    a.(last := next, msgs := a.msgs[next := record])
  }

  function AckSaved(a: Store, client: Bytes, s: nat): Store {
    a.(acks := a.acks + {(client, s)})
  }

  /** Messages up to `t` are gone; a threshold of zero means nothing to do. */
  function Compacted(a: Store, t: nat): Store {
    a.(msgs := map s | s in a.msgs && (t == 0 || s > t) :: a.msgs[s])
  }

  function AcksPurged(a: Store, t: nat): Store {
    a.(acks := set p | p in a.acks && (t == 0 || p.1 > t))
  }

  /** A threshold of zero removes nothing, not even number 0. */
  lemma ZeroRemovesNothing(a: Store)
    ensures Compacted(a, 0) == a && AcksPurged(a, 0) == a
  {
    assert Compacted(a, 0).msgs == a.msgs;
  }

  /** The number read off an ACK key after the prefix of `client`, if it has that prefix. */
  function AckReadFor(client: Bytes, k: Bytes): Option<nat> {
    if AckPrefix(client) <= k then Stoull(k[|AckPrefix(client)|..]) else None
  }

  /** What loading the ACKs of `client` yields: every number read off a key with its prefix. */
  function LoadedAcks(acks: set<(Bytes, nat)>, client: Bytes): set<nat> {
    set p | p in acks && AckReadFor(client, AckKey(p.0, p.1)).Some? :: AckReadFor(client, AckKey(p.0, p.1)).value
  }

  function AcksOf(acks: set<(Bytes, nat)>, client: Bytes): set<nat> {
    set p | p in acks && p.0 == client :: p.1
  }

  // ----- Client ids and prefixes -----

  lemma OwnAckIsRead(client: Bytes, s: nat)
    requires s < U64
    ensures AckReadFor(client, AckKey(client, s)) == Some(s)
  {
    var k := AckKey(client, s);
    assert k[|AckPrefix(client)|..] == Dec(s) && Dec(s) + [] == Dec(s);
    assert k[..|AckPrefix(client)|] == AckPrefix(client);
    StoullDec(s, []);
  }

  /** A key has the prefix of `c` only if it belongs to `c` or to an id that continues `c` with a colon. */
  lemma PrefixOwner(c: Bytes, d: Bytes, s: nat)
    requires AckPrefix(c) <= AckKey(d, s)
    ensures d == c || c + [COLON] <= d
  {
    var k := AckKey(d, s);
    var n := |AckPrefix(c)|;
    assert k[..n] == AckPrefix(c);
    assert k == ACK + (d + [COLON] + Dec(s));
    var rest := d + [COLON] + Dec(s);
    assert rest[..|c| + 1] == k[4..n] == c + [COLON];
    if |c| < |d| {
      assert d[..|c| + 1] == c + [COLON];
    } else {
      assert rest[|c|] == COLON;
      DecHasNoColon(s);
      assert forall i :: |d| < i < |rest| ==> rest[i] in Dec(s);
      assert c == rest[..|c|] == d;
    }
  }

  /** No ACK is missed on loading, whatever the client ids. */
  lemma LoadedAcksComplete(acks: set<(Bytes, nat)>, client: Bytes)
    requires forall c, s :: (c, s) in acks ==> s < U64
    ensures AcksOf(acks, client) <= LoadedAcks(acks, client)
  {
    forall s | s in AcksOf(acks, client) ensures s in LoadedAcks(acks, client) {
      assert (client, s) in acks;
      OwnAckIsRead(client, s);
    }
  }

  /** Loading is exact when no id with an ACK continues `client` with a colon, in particular for colon-free ids. */
  lemma LoadedAcksExact(acks: set<(Bytes, nat)>, client: Bytes)
    requires forall c, s :: (c, s) in acks ==> s < U64 && !(client + [COLON] <= c)
    ensures LoadedAcks(acks, client) == AcksOf(acks, client)
  {
    LoadedAcksComplete(acks, client);
    forall n | n in LoadedAcks(acks, client) ensures n in AcksOf(acks, client) {
      var c, s :| (c, s) in acks && AckReadFor(client, AckKey(c, s)) == Some(n);
      PrefixOwner(client, c, s);
      OwnAckIsRead(client, s);
    }
  }

  /** Whatever its numbers, an id `client:x` is read as the number x stands for, if x starts with one. */
  lemma ContinuedIdReads(client: Bytes, x: Bytes, s: nat)
    ensures AckReadFor(client, AckKey(client + [COLON] + x, s)) == Stoull(x)
  {
    var k := AckKey(client + [COLON] + x, s);
    assert k == AckPrefix(client) + (x + [COLON] + Dec(s));
    assert k[..|AckPrefix(client)|] == AckPrefix(client);
    assert k[|AckPrefix(client)|..] == x + [COLON] + Dec(s);
    StoullStopsAtColon(x, Dec(s));
  }

  /** The id continues the client's with a colon and reads as a number the client has not ACKed. */
  predicate StrayReading(acks: set<(Bytes, nat)>, client: Bytes, id: Bytes) {
    && client + [COLON] <= id
    && Stoull(id[|client| + 1..]).Some?
    && (client, Stoull(id[|client| + 1..]).value) !in acks
  }

  ghost predicate NoStrayReadings(acks: set<(Bytes, nat)>, client: Bytes) {
    forall c, s :: (c, s) in acks ==> !StrayReading(acks, client, c)
  }

  /** Loading is exact if and only if no id continuing the client's reads as a number the client has not ACKed. */
  lemma LoadedAcksExactIff(acks: set<(Bytes, nat)>, client: Bytes)
    requires forall c, s :: (c, s) in acks ==> s < U64
    ensures LoadedAcks(acks, client) == AcksOf(acks, client) <==> NoStrayReadings(acks, client)
  {
    hide AckReadFor, AckKey, Stoull;
    LoadedAcksComplete(acks, client);
    forall c, s | (c, s) in acks && client + [COLON] <= c
      ensures AckReadFor(client, AckKey(c, s)) == Stoull(c[|client| + 1..])
    {
      assert c == client + [COLON] + c[|client| + 1..];
      ContinuedIdReads(client, c[|client| + 1..], s);
    }
    if NoStrayReadings(acks, client) {
      forall n | n in LoadedAcks(acks, client) ensures n in AcksOf(acks, client) {
        var p :| p in acks && AckReadFor(client, AckKey(p.0, p.1)) == Some(n);
        assert (p.0, p.1) in acks;
        ReadingOwner(client, p.0, p.1);
        if p.0 == client { OwnAckIsRead(client, p.1); }
      }
    } else {
      var c, s :| (c, s) in acks && StrayReading(acks, client, c);
      var n := Stoull(c[|client| + 1..]).value;
      assert AckReadFor(client, AckKey(c, s)) == Some(n);
      assert n in LoadedAcks(acks, client) && n !in AcksOf(acks, client);
    }
  }

  lemma ReadingOwner(client: Bytes, c: Bytes, s: nat)
    requires AckReadFor(client, AckKey(c, s)).Some?
    ensures c == client || client + [COLON] <= c
  {
    PrefixOwner(client, c, s);
  }

  /** So ids with colons can go wrong: an ACK of `client:<n>` is read as an ACK of n by `client`. */
  lemma ColonIdMisread(client: Bytes, n: nat, s: nat)
    requires n < U64 && s < U64
    ensures var other := client + [COLON] + Dec(n);
            n in LoadedAcks({(other, s)}, client) && AcksOf({(other, s)}, client) == {}
  {
    var other := client + [COLON] + Dec(n);
    ContinuedIdReads(client, Dec(n), s);
    assert Dec(n) + [] == Dec(n);
    StoullDec(n, []);
    assert (other, s) in {(other, s)};
    assert |other| > |client|;
  }

  // ----- Refinement: each write on the keys is an operation on the abstract store -----

  lemma SaveRepresents(db: map<Bytes, Bytes>, a: Store, record: Bytes)
    requires Represents(db, a)
    ensures var next := Add64(a.last, 1);
            Represents(db[MsgKey(next) := record][LAST_SEQ := BigEndian(next, 8)], Saved(a, record))
  {
    var next := Add64(a.last, 1);
    var db', a' := db[MsgKey(next) := record][LAST_SEQ := BigEndian(next, 8)], Saved(a, record);
    hide MsgKey, AckKey, MsgSeq, AckSeq, AckClient, BigEndian;
    MsgKeyReads(next);
    forall k | k in db' ensures Explained(k, db'[k], a') {
      if k != LAST_SEQ && k != MsgKey(next) { assert Explained(k, db[k], a); }
    }
  }

  lemma SaveAckRepresents(db: map<Bytes, Bytes>, a: Store, client: Bytes, s: nat)
    requires Represents(db, a) && s < U64
    ensures Represents(db[AckKey(client, s) := ACK_FLAG], AckSaved(a, client, s))
  {
    var db', a' := db[AckKey(client, s) := ACK_FLAG], AckSaved(a, client, s);
    hide MsgKey, AckKey, MsgSeq, AckSeq, AckClient, BigEndian;
    AckKeyReads(client, s);
    forall k | k in db' ensures Explained(k, db'[k], a') {
      if k != AckKey(client, s) { assert Explained(k, db[k], a); }
    }
  }

  predicate OldMessage(k: Bytes, t: nat) {
    MSG <= k && MsgSeq(k).Some? && MsgSeq(k).value <= t
  }

  predicate OldAck(k: Bytes, t: nat) {
    ACK <= k && AckSeq(k).Some? && AckSeq(k).value <= t
  }

  function OldMessageKeys(db: map<Bytes, Bytes>, t: nat): set<Bytes> {
    set k | k in db && OldMessage(k, t)
  }

  function OldAckKeys(db: map<Bytes, Bytes>, t: nat): set<Bytes> {
    set k | k in db && OldAck(k, t)
  }

  /** Deleting the keys of old messages removes exactly those messages, and touches no other family. */
  lemma CompactRepresents(db: map<Bytes, Bytes>, a: Store, t: nat)
    requires Represents(db, a) && t > 0
    ensures Represents(db - OldMessageKeys(db, t), Compacted(a, t))
  {
    var db', a' := db - OldMessageKeys(db, t), Compacted(a, t);
    hide MsgKey, AckKey, MsgSeq, AckSeq, AckClient, BigEndian;
    assert LAST_SEQ[0] != MSG[0];
    forall k | k in db' ensures Explained(k, db'[k], a') {
      assert Explained(k, db[k], a);
    }
    forall s | s in a'.msgs ensures s < U64 && MsgKey(s) in db' {
      MsgKeyReads(s);
    }
    forall c, s | (c, s) in a'.acks ensures s < U64 && AckKey(c, s) in db' {
      AckKeyReads(c, s);
    }
  }

  /** Deleting the keys of old ACKs removes exactly those ACKs, for any client id, and touches no other family. */
  lemma PurgeRepresents(db: map<Bytes, Bytes>, a: Store, t: nat)
    requires Represents(db, a) && t > 0
    ensures Represents(db - OldAckKeys(db, t), AcksPurged(a, t))
  {
    var db', a' := db - OldAckKeys(db, t), AcksPurged(a, t);
    hide MsgKey, AckKey, MsgSeq, AckSeq, AckClient, BigEndian;
    assert LAST_SEQ[0] != ACK[0];
    forall k | k in db' ensures Explained(k, db'[k], a') {
      assert Explained(k, db[k], a);
      if k != LAST_SEQ && !(MSG <= k) { AckKeyReads(AckClient(k), AckSeq(k).value); }
    }
    forall s | s in a'.msgs ensures s < U64 && MsgKey(s) in db' {
      MsgKeyReads(s);
    }
    forall c, s | (c, s) in a'.acks ensures s < U64 && AckKey(c, s) in db' {
      AckKeyReads(c, s);
    }
  }
}
