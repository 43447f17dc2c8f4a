/**
  * Cursors over the store: the keys of a transaction's snapshot in byte order, and
  * the position MDB_SET_RANGE finds.
  */
module Cursor {
  import opened ByteStrings

  ghost predicate Sorted(ks: seq<Bytes>) {
    forall i, j :: 0 <= i < j < |ks| ==> Less(ks[i], ks[j])
  }

  /** `ks` lists `keys` in key order. */
  ghost predicate IsKeyOrder(ks: seq<Bytes>, keys: set<Bytes>) {
    Sorted(ks) && forall k :: k in ks <==> k in keys
  }

  /** Number of leading keys below `k`: where MDB_SET_RANGE positions the cursor. */
  function SetRange(ks: seq<Bytes>, k: Bytes, i: nat := 0): (r: nat)
    requires i <= |ks|
    ensures i <= r <= |ks|
    decreases |ks| - i
  {
    if i < |ks| && Less(ks[i], k) then SetRange(ks, k, i + 1) else i
  }

  lemma {:induction false} SetRangeSpec(ks: seq<Bytes>, k: Bytes, i: nat)
    requires Sorted(ks) && i <= |ks| && forall j :: 0 <= j < i ==> Less(ks[j], k)
    ensures forall j :: 0 <= j < SetRange(ks, k, i) ==> Less(ks[j], k)
    ensures forall j :: SetRange(ks, k, i) <= j < |ks| ==> !Less(ks[j], k)
    decreases |ks| - i
  {
    if i < |ks| && Less(ks[i], k) {
      SetRangeSpec(ks, k, i + 1);
    } else {
      forall j | i < j < |ks| ensures !Less(ks[j], k) {
        if Less(ks[j], k) { LessTransitive(ks[i], ks[j], k); }
      }
    }
  }

  function InsertAt(ks: seq<Bytes>, i: nat, k: Bytes): seq<Bytes>
    requires i <= |ks|
  {
    ks[..i] + [k] + ks[i..]
  }

  lemma InsertKeepsOrder(ks: seq<Bytes>, keys: set<Bytes>, k: Bytes)
    requires IsKeyOrder(ks, keys) && k !in keys
    ensures IsKeyOrder(InsertAt(ks, SetRange(ks, k), k), keys + {k})
  {
    var i := SetRange(ks, k);
    SetRangeSpec(ks, k, 0);
    InsertKeepsSorted(ks, i, k);
    assert ks == ks[..i] + ks[i..];
  }

  lemma InsertKeepsSorted(ks: seq<Bytes>, i: nat, k: Bytes)
    requires Sorted(ks) && k !in ks && i <= |ks|
    requires forall j :: 0 <= j < i ==> Less(ks[j], k)
    requires forall j :: i <= j < |ks| ==> !Less(ks[j], k)
    ensures Sorted(InsertAt(ks, i, k))
  {
    hide Less;
    var r := InsertAt(ks, i, k);
    forall a, b | 0 <= a < b < |r| ensures Less(r[a], r[b]) {
      if a == i {
        assert r[b] == ks[b - 1];
        LessTotal(k, ks[b - 1]);
      }
    }
  }

  /** The snapshot's keys, sorted. */
  method Open(keys: set<Bytes>) returns (ks: seq<Bytes>)
    ensures IsKeyOrder(ks, keys)
  {
    ks := [];
    var todo := keys;
    while todo != {}
      invariant todo <= keys && IsKeyOrder(ks, keys - todo)
      decreases |todo|
    {
      var k :| k in todo;
      InsertKeepsOrder(ks, keys - todo, k);
      assert keys - (todo - {k}) == (keys - todo) + {k};
      ks := InsertAt(ks, SetRange(ks, k), k);
      todo := todo - {k};
    }
    assert keys - todo == keys;
  }

  /** The snapshot's keys, sorted, as a value. */
  ghost function KeyOrder(keys: set<Bytes>): (ks: seq<Bytes>)
    ensures IsKeyOrder(ks, keys)
  {
    if keys == {} then []
    else
      var k :| k in keys;
      var rest := KeyOrder(keys - {k});
      InsertKeepsOrder(rest, keys - {k}, k);
      assert keys - {k} + {k} == keys;
      InsertAt(rest, SetRange(rest, k), k)
  }

  /** There is one key order. */
  lemma {:induction false} KeyOrderUnique(a: seq<Bytes>, b: seq<Bytes>, keys: set<Bytes>)
    requires IsKeyOrder(a, keys) && IsKeyOrder(b, keys)
    ensures a == b
    decreases |a|
  {
    if b != [] { assert b[0] in b && b[0] in a; }
    if a != [] {
      assert a[0] in a && a[0] in b;
      assert b[0] in b && b[0] in a;
      LessTotal(a[0], b[0]);
      var k := a[0];
      TailKeyOrder(a, keys);
      TailKeyOrder(b, keys);
      KeyOrderUnique(a[1..], b[1..], keys - {k});
      assert a == [k] + a[1..] && b == [k] + b[1..];
    }
  }

  lemma TailKeyOrder(a: seq<Bytes>, keys: set<Bytes>)
    requires IsKeyOrder(a, keys) && a != []
    ensures IsKeyOrder(a[1..], keys - {a[0]})
  {
    LessIrreflexive(a[0]);
    assert a == [a[0]] + a[1..];
    assert forall j :: 0 < j < |a| ==> Less(a[0], a[j]);
    forall x ensures x in a[1..] <==> x in keys - {a[0]} {
    }
  }

  /**
    * A scan that starts at a prefix and stops at the first key without it has visited
    * every key that has it.
    */
  lemma PrefixRange(ks: seq<Bytes>, p: Bytes, i: nat)
    requires Sorted(ks) && SetRange(ks, p) <= i <= |ks|
    requires i == |ks| || !(p <= ks[i])
    ensures forall k :: k in ks && p <= k ==> k in ks[SetRange(ks, p)..i]
  {
    SetRangeSpec(ks, p, 0);
    forall k | k in ks && p <= k ensures k in ks[SetRange(ks, p)..i] {
      var j :| 0 <= j < |ks| && ks[j] == k;
      PrefixNotLess(p, ks[j]);
      if i < j {
        LessTotal(ks[i], ks[j]);
        PrefixRangeContiguous(p, ks[i], ks[j]);
      }
      assert ks[SetRange(ks, p)..i][j - SetRange(ks, p)] == k;
    }
  }
}
