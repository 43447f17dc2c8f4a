/**
  * Decimal order in plain numbers, and with it which messages client replay misses.
  */
module MissedMessages {
  import opened ByteStrings
  import opened Decimal
  import opened KeySpace
  import opened LmdbStorage
  import opened RangeScan
  import opened BrokerModel
  import opened Numbering
  import opened AckDelivery
  import opened Replay
  import opened WindowedClients
  import opened SnapshotLimit

  /** The leading digits of `s`, as many as `f` has. */
  function Leading(s: nat, f: nat): nat {
    if |Dec(s)| <= |Dec(f)| || s < 10 then s else Leading(s / 10, f)
  }

  /** Comparison of decimals by their numbers: the longer is cut to the width of the shorter, which wins a tie. */
  predicate SortsBefore(s: nat, f: nat) {
    if s >= f then Leading(s, f) < f else s <= Leading(f, s)
  }

  lemma {:induction false} WidthGrows(s: nat, f: nat)
    requires s >= f
    ensures |Dec(s)| >= |Dec(f)|
    decreases s
  {
    if f >= 10 { WidthGrows(s / 10, f / 10); }
  }

  lemma LastDigit(s: nat)
    requires s >= 10
    ensures Dec(s) == Dec(s / 10) + [48 + s % 10]
  {
  }

  /** A longer number sorts before a shorter one exactly when its leading digits are the smaller number. */
  lemma {:induction false} LongerSortsBefore(s: nat, f: nat)
    requires s >= f
    ensures DecLess(s, f) <==> Leading(s, f) < f
    decreases s
  {
    hide Less;
    WidthGrows(s, f);
    if |Dec(s)| == |Dec(f)| {
      DecOrder(s, f);
    } else {
      OneDigit(s);
      hide Dec;
      var q, more := s / 10, [48 + s % 10];
      LastDigit(s);
      LessTotal(Dec(q), Dec(f));
      LessTotal(Dec(s), Dec(f));
      LessIrreflexive(Dec(f));
      if q < f {
        WidthGrows(f, q);
        DecOrder(q, f);
      } else {
        LongerSortsBefore(q, f);
      }
      if Less(Dec(q), Dec(f)) {
        LessDecided(Dec(q), Dec(f), more);
      } else if Dec(q) == Dec(f) {
        PrefixLess(Dec(f), more);
      } else {
        LessExtends(Dec(f), Dec(q), more);
      }
    }
  }

  lemma OneDigit(s: nat)
    ensures s < 10 <==> |Dec(s)| == 1
    ensures |Dec(s)| >= 1
  {
  }

  /** Byte order of the keys of any two numbers, in plain numbers. */
  lemma SortsBeforeIff(s: nat, f: nat)
    ensures DecLess(s, f) <==> SortsBefore(s, f)
  {
    hide Dec, Less, Leading;
    if s >= f {
      LongerSortsBefore(s, f);
    } else {
      LongerSortsBefore(f, s);
      LessTotal(Dec(s), Dec(f));
      DecLessAsymmetric(s, f);
      if Dec(s) == Dec(f) { DecInjective(s, f); }
    }
  }

  // ----- Powers of ten -----

  /** The power of ten as wide as `s`. */
  function TopPower(s: nat): nat {
    if s < 10 then 1 else 10 * TopPower(s / 10)
  }

  lemma {:induction false} TopPowerSpec(s: nat)
    requires s >= 1
    ensures IsPowerOfTen(TopPower(s)) && TopPower(s) <= s && |Dec(TopPower(s))| == |Dec(s)|
  {
    if s >= 10 { TopPowerSpec(s / 10); }
  }

  /** Everything below a power of ten is shorter. */
  lemma {:induction false} BelowPowerIsShorter(f: nat, q: nat)
    requires 1 <= f < q && IsPowerOfTen(q)
    ensures |Dec(f)| < |Dec(q)|
    decreases q
  {
    if f >= 10 {
      BelowPowerIsShorter(f / 10, q / 10);
    } else {
      OneDigit(f);
      OneDigit(q);
    }
  }

  lemma {:induction false} LeadingOfPower(p: nat, f: nat)
    requires IsPowerOfTen(p) && p >= f
    ensures IsPowerOfTen(Leading(p, f)) && |Dec(Leading(p, f))| <= |Dec(f)|
    decreases p
  {
    if |Dec(p)| > |Dec(f)| {
      OneDigit(p);
      OneDigit(f);
      if p / 10 >= f {
        LeadingOfPower(p / 10, f);
      } else {
        WidthGrows(f, p / 10);
      }
    }
  }

  ghost predicate PowerBetween(f: nat, hi: nat) {
    exists p: nat :: IsPowerOfTen(p) && f < p <= hi
  }

  /**
    * Some number from f up to `hi` sorts before f if and only if f is not a power of ten and
    * there is one between them.
    */
  lemma SomeSortsBeforeIff(f: nat, hi: nat)
    requires f >= 1
    ensures (exists s: nat :: f <= s <= hi && DecLess(s, f)) <==> !IsPowerOfTen(f) && PowerBetween(f, hi)
  {
    hide DecLess, Dec, IsPowerOfTen, Leading;
    if s: nat :| f <= s <= hi && DecLess(s, f) {
      DecLessAsymmetric(s, f);
      if IsPowerOfTen(f) { PowerSortsFirst(f, s); }
      WidthGrows(s, f);
      TopPowerSpec(s);
      var p := TopPower(s);
      WiderThan(s, f);
      if p <= f { WidthGrows(f, p); }
      assert IsPowerOfTen(p) && f < p <= hi;
    }
    if !IsPowerOfTen(f) && PowerBetween(f, hi) {
      var p: nat :| IsPowerOfTen(p) && f < p <= hi;
      LeadingOfPower(p, f);
      var q := Leading(p, f);
      if q > f { BelowPowerIsShorter(f, q); }
      LongerSortsBefore(p, f);
    }
  }

  lemma WiderThan(s: nat, f: nat)
    requires s >= f && DecLess(s, f)
    ensures |Dec(s)| > |Dec(f)|
  {
    WidthGrows(s, f);
    if |Dec(s)| == |Dec(f)| { DecOrder(s, f); }
  }

  // ----- Client replay -----

  /** A stored message on the topic is not among those sent. */
  predicate Misses(msgs: map<nat, Bytes>, sent: seq<Loaded>, topic: Bytes, s: nat) {
    OnTopic(msgs, s, topic) && MessageAt(msgs, s, topic) !in sent
  }

  /**
    * After every committed run, for a registered client within 100000 of the counter, in plain
    * numbers.  A message after the last ACK on the topic is missed if and only if its leading
    * digits are below the number after the last ACK; so when everything after the last ACK is
    * on the topic, something is missed if and only if that number is not a power of ten and a
    * power of ten has been published since.
    */
  lemma MissedInNumbers(sep: Bytes, start: History, base: nat, evs: seq<Event>, client: Bytes, topic: Bytes,
                        db: map<Bytes, Bytes>)
    requires Numbered(sep, start, base) && AcksKept(start) && Owned(start, client)
    requires CommittedRun(sep, start, evs) && NoContinuedIds(evs, client)
    requires var h := Run(sep, start, evs);
             && client in h.registered && Represents(db, h.state.store)
             && h.state.current <= LastAck(h.state, client) + MAX_STORED_MESSAGES < U64
    ensures var h := Run(sep, start, evs);
            var msgs := h.state.store.msgs;
            var from := LastAck(h.state, client) + 1;
            var sent := ClientSends(db, h.state, client, topic);
            && (forall s: nat :: s >= from && OnTopic(msgs, s, topic) ==>
                  (Misses(msgs, sent, topic, s) <==> Leading(s, from) < from))
            && ((forall s: nat :: from <= s <= h.state.current ==> OnTopic(msgs, s, topic)) ==>
                  ((exists s: nat :: from <= s <= h.state.current && Misses(msgs, sent, topic, s)) <==>
                   !IsPowerOfTen(from) && PowerBetween(from, h.state.current)))
  {
    hide Represents, Sends, AcksKept, CommittedRun, OnTopic, PayloadOf, DecLess, InScan, Numbered, Owned, IsPowerOfTen, Leading, PowerBetween, Run, LastAck;
    var h := Run(sep, start, evs);
    var msgs, from := h.state.store.msgs, LastAck(h.state, client) + 1;
    var sent := ClientSends(db, h.state, client, topic);
    ReplayFaultsIff(sep, start, base, evs, client, topic, db);
    AckedIsBelowLastAck(sep, start, base, evs);
    forall s: nat | s >= from && OnTopic(msgs, s, topic)
      ensures Misses(msgs, sent, topic, s) <==> DecLess(s, from)
      ensures DecLess(s, from) <==> Leading(s, from) < from
    {
      OnTopicIsStored(msgs, s, topic);
      LongerSortsBefore(s, from);
    }
    SomeSortsBeforeIff(from, h.state.current);
  }

  lemma OnTopicIsStored(msgs: map<nat, Bytes>, s: nat, topic: Bytes)
    requires OnTopic(msgs, s, topic)
    ensures s in msgs
  {
  }
}
