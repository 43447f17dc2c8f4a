/**
  * The storage layer: one flat byte-string map, scanned by cursor.  Each method is a
  * transaction; the ghost model says what the keys stand for.
  */
module LmdbStorage {
  import opened ByteStrings
  import opened Decimal
  import opened KeySpace
  import opened Cursor

  datatype Stored = Stored(seqId: nat, record: Bytes)

  datatype Loaded = Loaded(seqId: nat, topic: Bytes, payload: Bytes)

  // ----- The range scan -----

  /**
    * What load_range visits from cursor position `i`: message keys in key order, up to
    * the first number above `to`.  None where std::stoull would throw.
    */
  function Scan(db: map<Bytes, Bytes>, ks: seq<Bytes>, i: nat, to: nat): Option<seq<Stored>>
    requires i <= |ks| && forall k :: k in ks ==> k in db
    decreases |ks| - i
  {
    if i == |ks| then Some([])
    else if !(MSG <= ks[i]) then Scan(db, ks, i + 1, to)
    else
      match Stoull(ks[i][4..])
      case None => None
      case Some(s) => if s > to then Some([]) else Prefixed([Stored(s, db[ks[i]])], Scan(db, ks, i + 1, to))
  }

  /** Everything load_range visits. */
  ghost function Visited(db: map<Bytes, Bytes>, from: nat, to: nat): Option<seq<Stored>> {
    var ks := KeyOrder(db.Keys);
    Scan(db, ks, SetRange(ks, MsgKey(from)), to)
  }

  function Prefixed(first: seq<Stored>, rest: Option<seq<Stored>>): Option<seq<Stored>> {
    if rest.None? then None else Some(first + rest.value)
  }

  /** Records that do not split into topic and payload are dropped from the result. */
  function Decoded(visited: seq<Stored>): (r: seq<Loaded>)
  {
    if visited == [] then []
    else
      var last := visited[|visited| - 1];
      Decoded(visited[..|visited| - 1]) + DecodedOne(last)
  }

  function DecodedOne(e: Stored): seq<Loaded> {
    match ParseRecord(e.record)
    case None => []
    case Some(m) => [Loaded(e.seqId, m.topic, m.payload)]
  }

  class LmdbStorage {
    const separator: Bytes
    var db: map<Bytes, Bytes>
    ghost var model: Store

    ghost predicate Valid()
      reads this
    {
      Represents(db, model)
    }

    /** Opens a database file on the records it holds; a new file holds none. */
    constructor (separator: Bytes, file: map<Bytes, Bytes>, ghost contents: Store)
      requires Represents(file, contents)
      ensures Valid() && db == file && model == contents && this.separator == separator
    {
      this.separator := separator;
      db := file;
      model := contents;
    }

    /**
      * The record goes under the number after the stored `last_seq`; the number passed in
      * is not used.  A transaction that does not commit leaves nothing behind.
      */
    method Save(seqId: nat, topic: Bytes, payload: Bytes, commits: bool)
      requires Valid()
      modifies this
      ensures Valid()
      ensures model == if commits then Saved(old(model), Record(separator, topic, payload)) else old(model)
    {
      var next := 1;
      if LAST_SEQ in db {
        var val := db[LAST_SEQ];
        assert Explained(LAST_SEQ, db[LAST_SEQ], model);
        if |val| == 8 {
          next := Add64(ReadLast(val, model.last), 1);
        }
      }
      var data := topic + separator + payload;
      if commits {
        SaveRepresents(db, model, data);
        db := db[MsgKey(next) := data];
        db := db[LAST_SEQ := BigEndian(next, 8)];
        model := Saved(model, data);
      }
    }

    method GetLastSeq() returns (last: nat)
      requires Valid()
      ensures last == model.last
    {
      last := 0;
      if LAST_SEQ in db {
        assert Explained(LAST_SEQ, db[LAST_SEQ], model);
        if |db[LAST_SEQ]| == 8 {
          last := ReadLast(db[LAST_SEQ], model.last);
        }
      }
    }

    /** None is the exception a malformed message key raises. */
    method LoadRange(from: nat, to: nat) returns (messages: Option<seq<Loaded>>)
      requires Valid()
      ensures var visited := Visited(db, from, to);
              messages == if visited.None? then None else Some(Decoded(visited.value))
    {
      hide Stoull, MsgKey, ParseRecord, Represents, Decoded, SetRange, Less, Scan;
      var ks := Open(db.Keys);
      KeyOrderUnique(ks, KeyOrder(db.Keys), db.Keys);
      var start := SetRange(ks, MsgKey(from));
      var i := start;
      var acc: seq<Loaded> := [];
      ghost var visited: seq<Stored> := [];
      ghost var whole := Scan(db, ks, start, to);
      PrefixedNone(whole);
      DecodedNone();
      while i < |ks|
        invariant start <= i <= |ks|
        invariant acc == Decoded(visited)
        invariant whole == Prefixed(visited, Scan(db, ks, i, to))
      {
        ScanStep(db, ks, i, to, visited);
        if MSG <= ks[i] {
          var seqId := Stoull(ks[i][4..]);
          if seqId.None? { return None; }
          if seqId.value > to { return Some(acc); }
          ghost var entry := Stored(seqId.value, db[ks[i]]);
          DecodedSnoc(visited, entry);
          visited := visited + [entry];
          var m := ParseRecord(db[ks[i]]);
          if m.Some? {
            acc := acc + [Loaded(seqId.value, m.value.topic, m.value.payload)];
          }
        }
        i := i + 1;
      }
      ScanEnd(db, ks, to, visited);
      return Some(acc);
    }

    method SaveAck(client: Bytes, s: nat, commits: bool)
      requires Valid() && s < U64
      modifies this
      ensures Valid()
      ensures model == if commits then AckSaved(old(model), client, s) else old(model)
    {
      if commits {
        SaveAckRepresents(db, model, client, s);
        db := db[AckKey(client, s) := ACK_FLAG];
        model := AckSaved(model, client, s);
      }
    }

    method LoadAcks(client: Bytes) returns (acks: set<nat>)
      requires Valid()
      ensures acks == LoadedAcks(model.acks, client)
    {
      hide Stoull, Less, SetRange, Represents;
      var prefix := AckPrefix(client);
      var ks := Open(db.Keys);
      var start := SetRange(ks, prefix);
      var i := start;
      ghost var read: map<nat, Bytes> := map[];
      acks := {};
      while i < |ks|
        invariant start <= i <= |ks| && acks == read.Keys
        invariant forall n :: n in read ==> read[n] in ks[start..i] && AckReadFor(client, read[n]) == Some(n)
        invariant forall k :: k in ks[start..i] && AckReadFor(client, k).Some? ==> AckReadFor(client, k).value in acks
      {
        if !(prefix <= ks[i]) { break; }
        assert ks[start..i + 1] == ks[start..i] + [ks[i]];
        var n := Stoull(ks[i][|prefix|..]);
        if n.Some? {
          acks := acks + {n.value};
          read := read[n.value := ks[i]];
        }
        i := i + 1;
      }
      PrefixRange(ks, prefix, i);
      LoadedFromKeys(db, model, ks, client, read);
    }

    method Compact(t: nat, commits: bool)
      requires Valid()
      modifies this
      ensures Valid() && model == if commits then Compacted(old(model), t) else old(model)
    {
      if t == 0 {
        assert Compacted(model, 0).msgs == model.msgs;
        return;
      }
      var toDelete := CollectOldMessages(t);
      if commits {
        CompactRepresents(db, model, t);
        DeleteAll(toDelete, OldMessageKeys(db, t), Compacted(model, t));
      }
    }

    method PurgeOldAcks(t: nat, commits: bool)
      requires Valid()
      modifies this
      ensures Valid() && model == if commits then AcksPurged(old(model), t) else old(model)
    {
      if t == 0 {
        assert AcksPurged(model, 0).acks == model.acks;
        return;
      }
      var toDelete := CollectOldAcks(t);
      if commits {
        PurgeRepresents(db, model, t);
        DeleteAll(toDelete, OldAckKeys(db, t), AcksPurged(model, t));
      }
    }

    /** The first half of Compact: a cursor scan of the message keys. */
    method CollectOldMessages(t: nat) returns (toDelete: seq<Bytes>)
      ensures forall k :: k in toDelete <==> k in OldMessageKeys(db, t)
    {
      hide Stoull, Less, SetRange;
      var ks := Open(db.Keys);
      var start := SetRange(ks, MSG);
      var i := start;
      toDelete := [];
      while i < |ks|
        invariant start <= i <= |ks|
        invariant forall k :: k in toDelete <==> k in ks[start..i] && OldMessage(k, t)
      {
        if !(MSG <= ks[i]) { break; }
        assert ks[start..i + 1] == ks[start..i] + [ks[i]];
        var s := Stoull(ks[i][4..]);
        if s.Some? && s.value <= t {
          toDelete := toDelete + [ks[i]];
        }
        i := i + 1;
      }
      PrefixRange(ks, MSG, i);
    }

    /** The first half of PurgeOldAcks: a cursor scan of the ACK keys. */
    method CollectOldAcks(t: nat) returns (toDelete: seq<Bytes>)
      ensures forall k :: k in toDelete <==> k in OldAckKeys(db, t)
    {
      hide Stoull, Less, SetRange, FindLast;
      var ks := Open(db.Keys);
      var start := SetRange(ks, ACK);
      var i := start;
      toDelete := [];
      while i < |ks|
        invariant start <= i <= |ks|
        invariant forall k :: k in toDelete <==> k in ks[start..i] && OldAck(k, t)
      {
        if !(ACK <= ks[i]) { break; }
        assert ks[start..i + 1] == ks[start..i] + [ks[i]];
        var colon := FindLast(ks[i], COLON);
        if colon.Some? && colon.value > 3 {
          var s := Stoull(ks[i][colon.value + 1..]);
          if s.Some? && s.value <= t {
            toDelete := toDelete + [ks[i]];
          }
        }
        i := i + 1;
      }
      PrefixRange(ks, ACK, i);
    }

    /** The deletion loop that ends both purges. */
    method DeleteAll(keys: seq<Bytes>, ghost doomed: set<Bytes>, ghost after: Store)
      requires (forall k :: k in keys <==> k in doomed) && Represents(db - doomed, after)
      modifies this
      ensures Valid() && model == after
    {
      hide Represents;
      ghost var before := db;
      for i := 0 to |keys|
        invariant forall k :: k in db <==> k in before && k !in keys[..i]
        invariant forall k :: k in db ==> db[k] == before[k]
      {
        db := db - {keys[i]};
        assert keys[..i + 1] == keys[..i] + [keys[i]];
      }
      assert keys[..|keys|] == keys;
      assert db == before - doomed;
      model := after;
    }
  }

  /** One turn of the scan loop, seen from the entries visited before it. */
  lemma ScanStep(db: map<Bytes, Bytes>, ks: seq<Bytes>, i: nat, to: nat, visited: seq<Stored>)
    requires i < |ks| && forall k :: k in ks ==> k in db
    ensures Prefixed(visited, Scan(db, ks, i, to)) ==
              if !(MSG <= ks[i]) then Prefixed(visited, Scan(db, ks, i + 1, to))
              else if Stoull(ks[i][4..]).None? then None
              else if Stoull(ks[i][4..]).value > to then Some(visited)
              else Prefixed(visited + [Stored(Stoull(ks[i][4..]).value, db[ks[i]])], Scan(db, ks, i + 1, to))
  {
    hide Stoull;
    assert visited + [] == visited;
    if MSG <= ks[i] && Stoull(ks[i][4..]).Some? {
      PrefixedTwice(visited, Stored(Stoull(ks[i][4..]).value, db[ks[i]]), Scan(db, ks, i + 1, to));
    }
  }

  lemma ScanEnd(db: map<Bytes, Bytes>, ks: seq<Bytes>, to: nat, visited: seq<Stored>)
    requires forall k :: k in ks ==> k in db
    ensures Prefixed(visited, Scan(db, ks, |ks|, to)) == Some(visited)
  {
    assert visited + [] == visited;
  }

  /** Decoding the stored counter. */
  function ReadLast(val: Bytes, ghost last: nat): (n: nat)
    requires last < U64 && val == BigEndian(last, 8)
    ensures n == last
  {
    Widths();
    BigEndianRoundTrip(last, 8);
    FromBigEndian(val)
  }

  lemma PrefixedNone(r: Option<seq<Stored>>)
    ensures Prefixed([], r) == r
  {
    if r.Some? { assert [] + r.value == r.value; }
  }

  lemma PrefixedTwice(first: seq<Stored>, e: Stored, r: Option<seq<Stored>>)
    ensures Prefixed(first, Prefixed([e], r)) == Prefixed(first + [e], r)
  {
    if r.Some? { assert first + ([e] + r.value) == first + [e] + r.value; }
  }

  lemma DecodedNone()
    ensures Decoded([]) == []
  {
  }

  lemma DecodedSnoc(visited: seq<Stored>, e: Stored)
    ensures Decoded(visited + [e]) == Decoded(visited) + DecodedOne(e)
  {
    assert (visited + [e])[..|visited|] == visited;
  }

  /** Reading every key that has a client's prefix yields the loaded set; `read` names a key for each number. */
  lemma LoadedFromKeys(db: map<Bytes, Bytes>, a: Store, ks: seq<Bytes>, client: Bytes, read: map<nat, Bytes>)
    requires Represents(db, a) && IsKeyOrder(ks, db.Keys)
    requires forall n :: n in read ==> read[n] in ks && AckReadFor(client, read[n]) == Some(n)
    requires forall k :: k in ks && AckReadFor(client, k).Some? ==> AckReadFor(client, k).value in read
    ensures read.Keys == LoadedAcks(a.acks, client)
  {
    hide AckReadFor, AckKey, MsgKey, AckSeq, AckClient, MsgSeq;
    forall n | n in read ensures n in LoadedAcks(a.acks, client) {
      var k := read[n];
      assert Explained(k, db[k], a);
      ReadKeysAreAcks(client, k);
      var p := (AckClient(k), AckSeq(k).value);
      assert p in a.acks && AckKey(p.0, p.1) == k;
    }
    forall n | n in LoadedAcks(a.acks, client) ensures n in read {
      var p :| p in a.acks && AckReadFor(client, AckKey(p.0, p.1)) == Some(n);
      assert (p.0, p.1) in a.acks;
      assert AckKey(p.0, p.1) in ks;
    }
  }

  lemma ReadKeysAreAcks(client: Bytes, k: Bytes)
    requires AckReadFor(client, k).Some?
    ensures k != LAST_SEQ && !(MSG <= k)
  {
    assert k[..|AckPrefix(client)|] == AckPrefix(client);
    assert k[0] == ACK[0];
  }
}
