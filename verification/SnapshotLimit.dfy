/**
  * Replay for a new subscriber scans from 0 to 100000.  Once number 100001 is stored it cuts
  * the scan short: in decimal order only the powers of ten come before it.
  */
module SnapshotLimit {
  import opened ByteStrings
  import opened Decimal
  import opened LmdbStorage
  import opened RangeScan
  import opened BrokerModel

  predicate IsPowerOfTen(p: nat) {
    p == 1 || (p >= 10 && p % 10 == 0 && IsPowerOfTen(p / 10))
  }

  /** The powers of ten a snapshot can reach. */
  const POWERS: set<nat> := {1, 10, 100, 1000, 10000, 100000}

  lemma PowersArePowers(p: nat)
    requires p in POWERS
    ensures IsPowerOfTen(p)
  {
    assert IsPowerOfTen(10);
    assert IsPowerOfTen(100);
    assert IsPowerOfTen(1000);
    assert IsPowerOfTen(10000);
    assert IsPowerOfTen(100000);
  }

  /** A power of ten and the numbers below ten times it have one width. */
  lemma {:induction false} PowerWidth(p: nat, t: nat)
    requires IsPowerOfTen(p) && p <= t < 10 * p
    ensures |Dec(t)| == |Dec(p)|
    decreases p
  {
    if p > 1 { PowerWidth(p / 10, t / 10); }
  }

  lemma {:induction false} LessExtends(a: Bytes, b: Bytes, more: Bytes)
    requires Less(a, b)
    ensures Less(a, b + more)
    decreases |a|
  {
    if a != [] && a[0] == b[0] {
      LessExtends(a[1..], b[1..], more);
      assert (b + more)[1..] == b[1..] + more;
    }
  }

  lemma {:induction false} PrefixLess(a: Bytes, more: Bytes)
    requires more != []
    ensures Less(a, a + more)
    decreases |a|
  {
    if a != [] {
      PrefixLess(a[1..], more);
      assert (a + more)[1..] == a[1..] + more;
    }
  }

  lemma {:induction false} LessDecided(a: Bytes, b: Bytes, more: Bytes)
    requires |a| >= |b| && Less(a, b)
    ensures Less(a + more, b)
    decreases |a|
  {
    if a[0] == b[0] {
      LessDecided(a[1..], b[1..], more);
      assert (a + more)[1..] == a[1..] + more;
    }
  }

  /** A power of ten sorts before every larger number. */
  lemma {:induction false} PowerSortsFirst(p: nat, t: nat)
    requires IsPowerOfTen(p) && p < t
    ensures DecLess(p, t)
    decreases t
  {
    if t < 10 * p {
      PowerWidth(p, t);
      DecOrder(p, t);
    } else {
      var q := t / 10;
      assert Dec(t) == Dec(q) + [48 + t % 10];
      if q == p {
        PrefixLess(Dec(p), [48 + t % 10]);
      } else {
        PowerSortsFirst(p, q);
        LessExtends(Dec(p), Dec(q), [48 + t % 10]);
      }
    }
  }

  lemma DecOf100001()
    ensures Dec(100001) == Dec(10000) + [49]
    ensures Dec(10000) == Dec(1000) + [48] && Dec(1000) == Dec(100) + [48]
    ensures Dec(100) == Dec(10) + [48] && Dec(10) == Dec(1) + [48]
  {
  }

  /** The digits of 100001 start with those of every smaller power of ten. */
  lemma LimitStartsWith(p: nat) returns (more: Bytes)
    requires p in POWERS && p < 100000
    ensures Dec(100001) == Dec(p) + more
  {
    DecOf100001();
    hide Dec;
    var d := Dec(p);
    more := if p == 10000 then [49] else if p == 1000 then [48, 49] else if p == 100 then [48, 48, 49]
            else if p == 10 then [48, 48, 48, 49] else [48, 48, 48, 48, 49];
    if p == 10000 {
    } else if p == 1000 {
      assert (d + [48]) + [49] == d + more;
    } else if p == 100 {
      assert ((d + [48]) + [48]) + [49] == d + more;
    } else if p == 10 {
      assert (((d + [48]) + [48]) + [48]) + [49] == d + more;
    } else {
      assert ((((d + [48]) + [48]) + [48]) + [48]) + [49] == d + more;
    }
  }

  /** Up to 100000, nothing but the powers of ten sorts before 100001. */
  lemma OnlyPowersSortBefore(s: nat)
    requires 1 <= s <= 100000 && s !in POWERS
    ensures !DecLess(s, 100001)
  {
    var p := if s < 10 then 1 else if s < 100 then 10 else if s < 1000 then 100 else if s < 10000 then 1000 else 10000;
    hide Dec, Less;
    PowersArePowers(p);
    var more := LimitStartsWith(p);
    PowerWidth(p, s);
    DecOrder(p, s);
    LessDecided(Dec(p), Dec(s), more);
    LessTotal(Dec(100001), Dec(s));
  }

  /** With 100001 stored, a scan from 0 to 100000 returns exactly the powers of ten that are stored. */
  lemma SnapshotAboveLimit(visited: seq<Stored>, msgs: map<nat, Bytes>, s: nat)
    requires IsScan(visited, msgs, 0, MAX_STORED_MESSAGES) && MAX_STORED_MESSAGES + 1 in msgs && 0 !in msgs
    ensures IsVisited(visited, msgs, s) <==> s in msgs && s in POWERS
  {
    hide IsScan, DecLess, IsPowerOfTen;
    ScanVisitsIff(visited, msgs, 0, MAX_STORED_MESSAGES, s);
    NotBelowZero(s);
    NotBelowZero(MAX_STORED_MESSAGES + 1);
    if s in POWERS {
      PowersArePowers(s);
      forall t: nat | t > MAX_STORED_MESSAGES ensures DecLess(s, t) {
        PowerSortsFirst(s, t);
      }
    } else if 1 <= s <= MAX_STORED_MESSAGES {
      OnlyPowersSortBefore(s);
    }
  }

  lemma NotBelowZero(s: nat)
    ensures !DecLess(s, 0)
  {
    ZeroIsLeast(s);
  }
}
