/**
  * What the decimal-key range scan returns, and exactly when that is the documented
  * range.
  */
module RangeScan {
  import opened ByteStrings
  import opened Decimal
  import opened KeySpace
  import opened Cursor
  import opened LmdbStorage

  /** Decimal order on numbers: the order of their message keys. */
  predicate DecLess(s: nat, t: nat) { Less(Dec(s), Dec(t)) }

  ghost predicate IsVisited(r: seq<Stored>, msgs: map<nat, Bytes>, s: nat) {
    s in msgs && Stored(s, msgs[s]) in r
  }

  /** A stored number above `to` cuts the scan before `s`. */
  ghost predicate CutBefore(msgs: map<nat, Bytes>, from: nat, to: nat, s: nat) {
    exists t :: t in msgs && t > to && !DecLess(t, from) && !DecLess(s, t)
  }

  /**
    * The scan, characterised: stored messages from `from` on in decimal order, none above
    * `to`, and everything in that order up to the first number above `to`.
    */
  ghost predicate IsScan(r: seq<Stored>, msgs: map<nat, Bytes>, from: nat, to: nat) {
    && (forall i :: 0 <= i < |r| ==>
          IsVisited(r, msgs, r[i].seqId) && r[i].record == msgs[r[i].seqId] && r[i].seqId <= to && !DecLess(r[i].seqId, from))
    && (forall i, j :: 0 <= i < j < |r| ==> DecLess(r[i].seqId, r[j].seqId))
    && (forall i, t :: 0 <= i < |r| && t in msgs && t > to && !DecLess(t, from) ==> DecLess(r[i].seqId, t))
    && (forall s :: s in msgs && !DecLess(s, from) ==> IsVisited(r, msgs, s) || CutBefore(msgs, from, to, s))
  }

  // ----- The cursor loop meets the characterisation -----

  /** A message is ahead of the cursor. */
  ghost predicate Ahead(ks: seq<Bytes>, i: nat, s: nat)
    requires i <= |ks|
  {
    MsgKey(s) in ks[i..]
  }

  ghost predicate CutAhead(ks: seq<Bytes>, i: nat, a: Store, to: nat, s: nat)
    requires i <= |ks|
  {
    exists t :: t in a.msgs && t > to && Ahead(ks, i, t) && !Less(MsgKey(s), MsgKey(t))
  }

  ghost predicate ScanFacts(r: seq<Stored>, ks: seq<Bytes>, i: nat, a: Store, to: nat)
    requires i <= |ks|
  {
    && (forall e :: e in r ==> Genuine(e, ks, i, a, to))
    && (forall j, k :: 0 <= j < k < |r| ==> Less(MsgKey(r[j].seqId), MsgKey(r[k].seqId)))
    && (forall s :: s in a.msgs && Ahead(ks, i, s) ==> IsVisited(r, a.msgs, s) || CutAhead(ks, i, a, to, s))
  }

  /** A visited entry is stored, ahead of the cursor, not above `to` and before every number that is. */
  ghost predicate Genuine(e: Stored, ks: seq<Bytes>, i: nat, a: Store, to: nat)
    requires i <= |ks|
  {
    && e.seqId in a.msgs && e.record == a.msgs[e.seqId] && e.seqId <= to && Ahead(ks, i, e.seqId)
    && forall t :: t in a.msgs && t > to && Ahead(ks, i, t) ==> Less(MsgKey(e.seqId), MsgKey(t))
  }

  lemma KeyAhead(db: map<Bytes, Bytes>, ks: seq<Bytes>, i: nat, s: nat)
    requires IsKeyOrder(ks, db.Keys) && i < |ks| && Ahead(ks, i, s)
    ensures MsgKey(s) == ks[i] || (Ahead(ks, i + 1, s) && Less(ks[i], MsgKey(s)))
  {
    hide MsgKey, Less;
    assert ks[i..] == [ks[i]] + ks[i + 1..];
    if MsgKey(s) != ks[i] {
      var j :| 0 <= j < |ks[i + 1..]| && ks[i + 1..][j] == MsgKey(s);
      assert ks[i + 1 + j] == MsgKey(s);
    }
  }

  lemma AheadLater(ks: seq<Bytes>, i: nat)
    requires i < |ks|
    ensures forall s :: Ahead(ks, i + 1, s) ==> Ahead(ks, i, s)
  {
    assert ks[i..] == [ks[i]] + ks[i + 1..];
  }

  lemma VisitedOrCutCons(r: seq<Stored>, db: map<Bytes, Bytes>, ks: seq<Bytes>, i: nat, a: Store, to: nat, s: nat, u: nat)
    requires IsKeyOrder(ks, db.Keys) && i < |ks| && ks[i] == MsgKey(s) && s in a.msgs
    requires u in a.msgs && Ahead(ks, i, u)
    requires Ahead(ks, i + 1, u) ==> IsVisited(r, a.msgs, u) || CutAhead(ks, i + 1, a, to, u)
    ensures IsVisited([Stored(s, a.msgs[s])] + r, a.msgs, u) || CutAhead(ks, i, a, to, u)
  {
    hide MsgKey, Less;
    AheadLater(ks, i);
    KeyAhead(db, ks, i, u);
    if MsgKey(u) == MsgKey(s) {
      MsgKeyInjective(u, s);
    } else if !IsVisited(r, a.msgs, u) {
      var t :| t in a.msgs && t > to && Ahead(ks, i + 1, t) && !Less(MsgKey(u), MsgKey(t));
    }
  }

  lemma GenuineHere(db: map<Bytes, Bytes>, ks: seq<Bytes>, i: nat, a: Store, to: nat, s: nat)
    requires IsKeyOrder(ks, db.Keys) && i < |ks| && ks[i] == MsgKey(s) && s in a.msgs && s <= to
    ensures Genuine(Stored(s, a.msgs[s]), ks, i, a, to)
  {
    hide MsgKey, Less;
    assert ks[i..][0] == MsgKey(s);
    forall t | t in a.msgs && t > to && Ahead(ks, i, t) ensures Less(MsgKey(s), MsgKey(t)) {
      KeyAhead(db, ks, i, t);
      if MsgKey(t) == MsgKey(s) { MsgKeyInjective(t, s); }
    }
  }

  /** Stepping back over a key that is not above `to`. */
  lemma GenuineEarlier(e: Stored, db: map<Bytes, Bytes>, ks: seq<Bytes>, i: nat, a: Store, to: nat)
    requires IsKeyOrder(ks, db.Keys) && i < |ks| && Genuine(e, ks, i + 1, a, to)
    requires forall t :: t in a.msgs && t > to ==> ks[i] != MsgKey(t)
    ensures Genuine(e, ks, i, a, to)
  {
    hide MsgKey, Less;
    AheadLater(ks, i);
    forall t | t in a.msgs && t > to && Ahead(ks, i, t) ensures Less(MsgKey(e.seqId), MsgKey(t)) {
      KeyAhead(db, ks, i, t);
    }
  }

  /** One message key, visited. */
  lemma ScanFactsCons(r: seq<Stored>, db: map<Bytes, Bytes>, ks: seq<Bytes>, i: nat, a: Store, to: nat, s: nat)
    requires IsKeyOrder(ks, db.Keys) && i < |ks| && ks[i] == MsgKey(s) && s in a.msgs && s <= to
    requires ScanFacts(r, ks, i + 1, a, to)
    ensures ScanFacts([Stored(s, a.msgs[s])] + r, ks, i, a, to)
  {
    hide MsgKey, Less, Ahead, CutAhead;
    var r' := [Stored(s, a.msgs[s])] + r;
    assert forall t :: t in a.msgs && t > to ==> ks[i] != MsgKey(t) by {
      forall t | t in a.msgs && t > to ensures MsgKey(s) != MsgKey(t) {
        if MsgKey(s) == MsgKey(t) { MsgKeyInjective(s, t); }
      }
    }
    GenuineHere(db, ks, i, a, to, s);
    forall e | e in r ensures Genuine(e, ks, i, a, to) && Less(MsgKey(s), MsgKey(e.seqId)) {
      GenuineEarlier(e, db, ks, i, a, to);
      LaterIsGreater(ks, i, e.seqId);
    }
    forall u | u in a.msgs && Ahead(ks, i, u) ensures IsVisited(r', a.msgs, u) || CutAhead(ks, i, a, to, u) {
      VisitedOrCutCons(r, db, ks, i, a, to, s, u);
    }
    hide Genuine;
    assert forall j :: 0 < j < |r'| ==> r'[j] == r[j - 1];
  }

  lemma MsgKeyInjective(s: nat, t: nat)
    requires MsgKey(s) == MsgKey(t)
    ensures s == t
  {
    assert MsgKey(s)[4..] == Dec(s) && MsgKey(t)[4..] == Dec(t);
    DecInjective(s, t);
  }

  lemma LaterIsGreater(ks: seq<Bytes>, i: nat, s: nat)
    requires Sorted(ks) && i < |ks| && Ahead(ks, i + 1, s)
    ensures Less(ks[i], MsgKey(s))
  {
    hide MsgKey, Less;
    var j :| 0 <= j < |ks[i + 1..]| && ks[i + 1..][j] == MsgKey(s);
    assert ks[i + 1 + j] == MsgKey(s);
  }

  /** A key that is no message key changes nothing. */
  lemma ScanFactsSkip(r: seq<Stored>, db: map<Bytes, Bytes>, ks: seq<Bytes>, i: nat, a: Store, to: nat)
    requires IsKeyOrder(ks, db.Keys) && i < |ks| && !(MSG <= ks[i])
    requires ScanFacts(r, ks, i + 1, a, to)
    ensures ScanFacts(r, ks, i, a, to)
  {
    AheadLater(ks, i);
    assert forall t :: MSG <= MsgKey(t);
    forall e | e in r ensures Genuine(e, ks, i, a, to) {
      GenuineEarlier(e, db, ks, i, a, to);
    }
    forall u | u in a.msgs && Ahead(ks, i, u) ensures IsVisited(r, a.msgs, u) || CutAhead(ks, i, a, to, u) {
      KeyAhead(db, ks, i, u);
      assert MSG <= MsgKey(u);
      if !IsVisited(r, a.msgs, u) {
        var t :| t in a.msgs && t > to && Ahead(ks, i + 1, t) && !Less(MsgKey(u), MsgKey(t));
      }
    }
  }

  /** A number above `to` ends the scan. */
  lemma ScanFactsCut(db: map<Bytes, Bytes>, ks: seq<Bytes>, i: nat, a: Store, to: nat, s: nat)
    requires IsKeyOrder(ks, db.Keys) && i < |ks| && ks[i] == MsgKey(s) && s in a.msgs && s > to
    ensures ScanFacts([], ks, i, a, to)
  {
    hide MsgKey, Less;
    assert ks[i] in ks[i..] && Ahead(ks, i, s);
    forall u | u in a.msgs && Ahead(ks, i, u) ensures CutAhead(ks, i, a, to, u) {
      KeyAhead(db, ks, i, u);
      LessTotal(MsgKey(s), MsgKey(u));
    }
  }

  lemma {:induction false} ScanMeetsFacts(db: map<Bytes, Bytes>, a: Store, ks: seq<Bytes>, i: nat, to: nat)
    requires Represents(db, a) && IsKeyOrder(ks, db.Keys) && i <= |ks|
    ensures Scan(db, ks, i, to).Some? && ScanFacts(Scan(db, ks, i, to).value, ks, i, a, to)
    decreases |ks| - i
  {
    hide MsgKey, Less, Stoull, ScanFacts, AckKey, AckSeq, AckClient;
    if i == |ks| {
      NothingAhead(ks, a, to);
    } else {
      var k := ks[i];
      assert k in ks && Explained(k, db[k], a);
      ScanMeetsFacts(db, a, ks, i + 1, to);
      if !(MSG <= k) {
        ScanFactsSkip(Scan(db, ks, i + 1, to).value, db, ks, i, a, to);
      } else {
        LastSeqIsNoMessage();
        var s := MsgSeq(k).value;
        if s > to {
          ScanFactsCut(db, ks, i, a, to, s);
        } else {
          ScanFactsCons(Scan(db, ks, i + 1, to).value, db, ks, i, a, to, s);
        }
      }
    }
  }

  lemma LastSeqIsNoMessage()
    ensures !(MSG <= LAST_SEQ)
  {
    assert LAST_SEQ[0] != MSG[0];
  }

  lemma NothingAhead(ks: seq<Bytes>, a: Store, to: nat)
    ensures ScanFacts([], ks, |ks|, a, to)
  {
  }

  lemma AheadOfStart(db: map<Bytes, Bytes>, a: Store, ks: seq<Bytes>, from: nat, s: nat)
    requires Represents(db, a) && IsKeyOrder(ks, db.Keys)
    ensures Ahead(ks, SetRange(ks, MsgKey(from)), s) ==> !DecLess(s, from)
    ensures s in a.msgs && !DecLess(s, from) ==> Ahead(ks, SetRange(ks, MsgKey(from)), s)
  {
    hide MsgKey, Less, AckKey, AckSeq, AckClient, SetRange;
    var i := SetRange(ks, MsgKey(from));
    SetRangeSpec(ks, MsgKey(from), 0);
    MsgKeyOrder(s, from);
    if Ahead(ks, i, s) {
      var j :| 0 <= j < |ks[i..]| && ks[i..][j] == MsgKey(s);
      assert ks[i + j] == MsgKey(s);
    }
    if s in a.msgs && !DecLess(s, from) {
      assert MsgKey(s) in ks;
      var j :| 0 <= j < |ks| && ks[j] == MsgKey(s);
      assert ks[i..][j - i] == MsgKey(s);
    }
  }

  /** On every store, the cursor loop of load_range returns the characterised scan and never throws. */
  lemma VisitedIsScan(db: map<Bytes, Bytes>, a: Store, from: nat, to: nat)
    requires Represents(db, a)
    ensures Visited(db, from, to).Some? && IsScan(Visited(db, from, to).value, a.msgs, from, to)
  {
    var ks := KeyOrder(db.Keys);
    var i := SetRange(ks, MsgKey(from));
    ScanMeetsFacts(db, a, ks, i, to);
    var r := Visited(db, from, to).value;
    FactsToScan(db, a, ks, from, to, r);
  }

  lemma FactsToScan(db: map<Bytes, Bytes>, a: Store, ks: seq<Bytes>, from: nat, to: nat, r: seq<Stored>)
    requires Represents(db, a) && IsKeyOrder(ks, db.Keys)
    requires ScanFacts(r, ks, SetRange(ks, MsgKey(from)), a, to)
    ensures IsScan(r, a.msgs, from, to)
  {
    hide MsgKey, Less, SetRange, Represents, IsKeyOrder;
    var i := SetRange(ks, MsgKey(from));
    forall j | 0 <= j < |r|
      ensures IsVisited(r, a.msgs, r[j].seqId) && r[j].record == a.msgs[r[j].seqId]
      ensures r[j].seqId <= to && !DecLess(r[j].seqId, from)
    {
      assert r[j] in r && Genuine(r[j], ks, i, a, to);
      assert r[j] == Stored(r[j].seqId, a.msgs[r[j].seqId]);
      AheadOfStart(db, a, ks, from, r[j].seqId);
    }
    forall j, k | 0 <= j < k < |r| ensures DecLess(r[j].seqId, r[k].seqId) {
      MsgKeyOrder(r[j].seqId, r[k].seqId);
    }
    forall j, t | 0 <= j < |r| && t in a.msgs && t > to && !DecLess(t, from) ensures DecLess(r[j].seqId, t) {
      assert Genuine(r[j], ks, i, a, to);
      AheadOfStart(db, a, ks, from, t);
      MsgKeyOrder(r[j].seqId, t);
    }
    forall s | s in a.msgs && !DecLess(s, from) ensures IsVisited(r, a.msgs, s) || CutBefore(a.msgs, from, to, s) {
      AheadOfStart(db, a, ks, from, s);
      if !IsVisited(r, a.msgs, s) {
        var t :| t in a.msgs && t > to && Ahead(ks, i, t) && !Less(MsgKey(s), MsgKey(t));
        AheadOfStart(db, a, ks, from, t);
        MsgKeyOrder(s, t);
      }
    }
  }

  // ----- The documented contract -----

  /** The stored messages numbered from `from` to `to`, in ascending order. */
  ghost predicate IsRange(r: seq<Stored>, msgs: map<nat, Bytes>, from: nat, to: nat) {
    && (forall i, j :: 0 <= i < j < |r| ==> r[i].seqId < r[j].seqId)
    && (forall i :: 0 <= i < |r| ==> r[i].seqId in msgs && r[i].record == msgs[r[i].seqId] && from <= r[i].seqId <= to)
    && (forall s :: s in msgs && from <= s <= to ==> IsVisited(r, msgs, s))
  }

  /** On the stored numbers, being at or after `from` and the order among those mean the same in decimal. */
  ghost predicate OrderAgrees(msgs: map<nat, Bytes>, from: nat) {
    && (forall s :: s in msgs ==> (DecLess(s, from) <==> s < from))
    && (forall s, t :: s in msgs && t in msgs && from <= s && from <= t ==> (DecLess(s, t) <==> s < t))
  }

  lemma ScanIsRange(r: seq<Stored>, msgs: map<nat, Bytes>, from: nat, to: nat)
    requires IsScan(r, msgs, from, to) && OrderAgrees(msgs, from)
    ensures IsRange(r, msgs, from, to)
  {
    hide DecLess;
  }

  lemma UncutScanAgrees(r: seq<Stored>, msgs: map<nat, Bytes>, from: nat, to: nat)
    requires IsScan(r, msgs, from, to) && IsRange(r, msgs, from, to)
    requires forall s :: s in msgs ==> s <= to
    ensures OrderAgrees(msgs, from)
  {
    hide DecLess;
    forall s | s in msgs ensures DecLess(s, from) <==> s < from {
      if s >= from || !DecLess(s, from) { assert IsVisited(r, msgs, s); }
    }
    forall s, t | s in msgs && t in msgs && from <= s && from <= t ensures DecLess(s, t) <==> s < t {
      assert IsVisited(r, msgs, s) && IsVisited(r, msgs, t);
      var i :| 0 <= i < |r| && r[i] == Stored(s, msgs[s]);
      var j :| 0 <= j < |r| && r[j] == Stored(t, msgs[t]);
      LessTotal(Dec(s), Dec(t));
      DecLessMeans(s, t);
      DecLessMeans(t, s);
      if s == t { LessIrreflexive(Dec(s)); }
    }
  }

  lemma DecLessMeans(s: nat, t: nat)
    ensures DecLess(s, t) <==> Less(Dec(s), Dec(t))
  {
  }

  /**
    * load_range meets its documented contract for every upper bound exactly when decimal
    * order agrees with numeric order on the stored numbers.
    */
  lemma RangeContractIff(db: map<Bytes, Bytes>, a: Store, from: nat)
    requires Represents(db, a)
    ensures (forall to :: 0 <= to < U64 ==>
               Visited(db, from, to).Some? && IsRange(Visited(db, from, to).value, a.msgs, from, to))
            <==> OrderAgrees(a.msgs, from)
  {
    hide Represents, Visited, IsScan, IsRange, OrderAgrees;
    forall to | 0 <= to < U64
      ensures Visited(db, from, to).Some?
      ensures OrderAgrees(a.msgs, from) ==> IsRange(Visited(db, from, to).value, a.msgs, from, to)
    {
      VisitedIsScan(db, a, from, to);
      if OrderAgrees(a.msgs, from) { ScanIsRange(Visited(db, from, to).value, a.msgs, from, to); }
    }
    var top := U64 - 1;
    if IsRange(Visited(db, from, top).value, a.msgs, from, top) {
      VisitedIsScan(db, a, from, top);
      StoredNumbersAre64Bit(db, a);
      UncutScanAgrees(Visited(db, from, top).value, a.msgs, from, top);
    }
  }

  lemma StoredNumbersAre64Bit(db: map<Bytes, Bytes>, a: Store)
    requires Represents(db, a)
    ensures forall s :: s in a.msgs ==> s < U64
  {
  }

  /** Numbers of one decimal width are in numeric order. */
  lemma SameWidthAgrees(msgs: map<nat, Bytes>, from: nat)
    requires forall s :: s in msgs ==> |Dec(s)| == |Dec(from)|
    ensures OrderAgrees(msgs, from)
  {
    forall s | s in msgs ensures DecLess(s, from) <==> s < from {
      DecOrder(s, from);
    }
    forall s, t | s in msgs && t in msgs ensures DecLess(s, t) <==> s < t {
      DecOrder(s, t);
    }
  }

  /** A scan visits no message twice. */
  lemma ScanVisitsOnce(r: seq<Stored>, msgs: map<nat, Bytes>, from: nat, to: nat)
    requires IsScan(r, msgs, from, to)
    ensures forall i, j :: 0 <= i < j < |r| ==> r[i].seqId != r[j].seqId
  {
    forall i, j | 0 <= i < j < |r| ensures r[i].seqId != r[j].seqId {
      assert DecLess(r[i].seqId, r[j].seqId);
      LessIrreflexive(Dec(r[i].seqId));
    }
  }

  /** From zero, a scan is complete, at any mix of widths, exactly when nothing stored is above `to`. */
  lemma ScanFromZero(r: seq<Stored>, msgs: map<nat, Bytes>, to: nat)
    requires IsScan(r, msgs, 0, to)
    ensures (forall s :: s in msgs ==> IsVisited(r, msgs, s)) <==> (forall s :: s in msgs ==> s <= to)
  {
    forall s | s in msgs ensures !DecLess(s, 0) {
      ZeroIsLeast(s);
    }
  }

  // ----- One call -----

  /** The scan from `from` up to `to` reaches `s`: not above `to`, not before `from` in decimal, nothing cuts it off. */
  ghost predicate InScan(msgs: map<nat, Bytes>, from: nat, to: nat, s: nat) {
    s in msgs && s <= to && !DecLess(s, from) && !CutBefore(msgs, from, to, s)
  }

  /** A scan returns exactly the messages it reaches. */
  lemma ScanVisitsIff(r: seq<Stored>, msgs: map<nat, Bytes>, from: nat, to: nat, s: nat)
    requires IsScan(r, msgs, from, to)
    ensures IsVisited(r, msgs, s) <==> InScan(msgs, from, to, s)
  {
    hide DecLess;
    if IsVisited(r, msgs, s) {
      var i :| 0 <= i < |r| && r[i] == Stored(s, msgs[s]);
      assert !DecLess(r[i].seqId, from);
    }
  }

  /** What it takes for one call: the scan reaches exactly the range, and decimal order is numeric order inside it. */
  ghost predicate RangeAgrees(msgs: map<nat, Bytes>, from: nat, to: nat) {
    && (forall s :: s in msgs ==> (from <= s <= to <==> InScan(msgs, from, to, s)))
    && (forall s, t :: s in msgs && t in msgs && from <= s < t <= to ==> DecLess(s, t))
  }

  lemma AgreeingScanIsRange(r: seq<Stored>, msgs: map<nat, Bytes>, from: nat, to: nat)
    requires IsScan(r, msgs, from, to) && RangeAgrees(msgs, from, to)
    requires forall s :: IsVisited(r, msgs, s) <==> InScan(msgs, from, to, s)
    ensures IsRange(r, msgs, from, to)
  {
    hide DecLess, InScan;
    forall i | 0 <= i < |r| ensures from <= r[i].seqId <= to {
      assert IsVisited(r, msgs, r[i].seqId);
    }
    forall i, j | 0 <= i < j < |r| ensures r[i].seqId < r[j].seqId {
      DecLessAsymmetric(r[i].seqId, r[j].seqId);
    }
  }

  lemma RangeScanAgrees(r: seq<Stored>, msgs: map<nat, Bytes>, from: nat, to: nat)
    requires IsScan(r, msgs, from, to) && IsRange(r, msgs, from, to)
    requires forall s :: IsVisited(r, msgs, s) <==> InScan(msgs, from, to, s)
    ensures RangeAgrees(msgs, from, to)
  {
    hide DecLess, InScan;
    forall s | s in msgs ensures from <= s <= to <==> IsVisited(r, msgs, s) {
    }
    forall s, t | s in msgs && t in msgs && from <= s < t <= to ensures DecLess(s, t) {
      var i :| 0 <= i < |r| && r[i] == Stored(s, msgs[s]);
      var j :| 0 <= j < |r| && r[j] == Stored(t, msgs[t]);
      assert i < j;
    }
  }

  lemma ScanIsRangeIff(r: seq<Stored>, msgs: map<nat, Bytes>, from: nat, to: nat)
    requires IsScan(r, msgs, from, to)
    ensures IsRange(r, msgs, from, to) <==> RangeAgrees(msgs, from, to)
  {
    hide IsScan, IsRange, RangeAgrees, InScan;
    forall s ensures IsVisited(r, msgs, s) <==> InScan(msgs, from, to, s) {
      ScanVisitsIff(r, msgs, from, to, s);
    }
    if RangeAgrees(msgs, from, to) { AgreeingScanIsRange(r, msgs, from, to); }
    if IsRange(r, msgs, from, to) { RangeScanAgrees(r, msgs, from, to); }
  }

  lemma DecLessAsymmetric(s: nat, t: nat)
    ensures DecLess(s, t) ==> !DecLess(t, s) && s != t
  {
    LessTotal(Dec(s), Dec(t));
    LessIrreflexive(Dec(s));
  }

  /** One call of load_range returns its documented range if and only if the two orders agree on that call. */
  lemma RangeCallIff(db: map<Bytes, Bytes>, a: Store, from: nat, to: nat)
    requires Represents(db, a)
    ensures Visited(db, from, to).Some?
    ensures IsRange(Visited(db, from, to).value, a.msgs, from, to) <==> RangeAgrees(a.msgs, from, to)
  {
    VisitedIsScan(db, a, from, to);
    ScanIsRangeIff(Visited(db, from, to).value, a.msgs, from, to);
  }

  // ----- Ten messages are enough -----

  lemma TenSortsBeforeTwo()
    ensures DecLess(10, 2) && !DecLess(2, 10) && !DecLess(10, 1) && !DecLess(2, 1)
  {
    assert Dec(1) == [49] && Dec(2) == [50] && Dec(10) == Dec(1) + [48];
    assert Less(Dec(10), Dec(2));
    LessTotal(Dec(10), Dec(2));
  }

  /** With 1 to 10 stored, as ten saves leave it: a scan from 10 returns 2, and a scan of 1 to 5 misses it. */
  lemma MixedWidthsBreakContract(db: map<Bytes, Bytes>, a: Store)
    requires Represents(db, a) && forall s :: s in a.msgs <==> 1 <= s <= 10
    ensures Visited(db, 10, 20).Some? && IsVisited(Visited(db, 10, 20).value, a.msgs, 2)
    ensures Visited(db, 1, 5).Some? && !IsVisited(Visited(db, 1, 5).value, a.msgs, 2)
  {
    hide DecLess, Represents, Visited, IsScan;
    TenSortsBeforeTwo();
    VisitedIsScan(db, a, 10, 20);
    ScanVisitsIff(Visited(db, 10, 20).value, a.msgs, 10, 20, 2);
    VisitedIsScan(db, a, 1, 5);
    ScanVisitsIff(Visited(db, 1, 5).value, a.msgs, 1, 5, 2);
    assert 10 in a.msgs && 2 in a.msgs;
  }
}
