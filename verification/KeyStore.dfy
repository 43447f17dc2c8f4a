/**
  * The registry of trusted keys: allocation of key ids and lookup for verification.
  */
module KeyStore {
  import opened ByteStrings

  type PublicKey = Bytes

  datatype TrustedKey = TrustedKey(
    publicKey: PublicKey, keyId: nat, deviceName: Bytes, allowedTopics: Bytes,
    enabled: bool, registeredAt: nat, lastUsed: nat)

  datatype Registry = Registry(keys: map<nat, TrustedKey>, nextId: nat)

  const EMPTY := Registry(map[], 1)

  /** A 32-bit increment. */
  function Next32(id: nat): nat { if id + 1 == U32 then 0 else id + 1 }

  datatype Change =
    | Allocate(key: TrustedKey)         // register under the next id
    | Claim(id: nat, key: TrustedKey)   // register under a given id
    | Enable(id: nat, on: bool)
    | Remove(id: nat)
    | Touch(id: nat, now: nat)
    | Clear

  function Changed(r: Registry, c: Change): Registry {
    match c
    case Allocate(key) => Registry(r.keys[r.nextId := key.(keyId := r.nextId)], Next32(r.nextId))
    case Claim(id, key) =>
      if id in r.keys then r
      else Registry(r.keys[id := key.(keyId := id)], if id >= r.nextId then Next32(id) else r.nextId)
    case Enable(id, on) => if id in r.keys then r.(keys := r.keys[id := r.keys[id].(enabled := on)]) else r
    case Remove(id) => r.(keys := r.keys - {id})
    case Touch(id, now) => if id in r.keys then r.(keys := r.keys[id := r.keys[id].(lastUsed := now)]) else r
    case Clear => EMPTY
  }

  /** The key exists and is enabled. */
  predicate Active(r: Registry, id: nat) { id in r.keys && r.keys[id].enabled }

  /** The store itself, updated in place. */
  class TrustedKeyStore {
    var keys: map<nat, TrustedKey>
    var nextId: nat

    ghost function View(): Registry
      reads this
    {
      Registry(keys, nextId)
    }

    constructor ()
      ensures View() == EMPTY
    {
      keys, nextId := map[], 1;
    }

    method RegisterNext(publicKey: PublicKey, deviceName: Bytes, allowedTopics: Bytes, now: nat) returns (id: nat)
      modifies this
      ensures var key := TrustedKey(publicKey, id, deviceName, allowedTopics, true, now, 0);
              id == old(nextId) && View() == Changed(old(View()), Allocate(key))
    {
      id := nextId;
      nextId := Next32(nextId);
      keys := keys[id := TrustedKey(publicKey, id, deviceName, allowedTopics, true, now, 0)];
    }

    method RegisterAs(id: nat, publicKey: PublicKey, deviceName: Bytes, allowedTopics: Bytes, now: nat) returns (ok: bool)
      modifies this
      ensures ok <==> id !in old(keys)
      ensures View() == Changed(old(View()), Claim(id, TrustedKey(publicKey, id, deviceName, allowedTopics, true, now, 0)))
    {
      if id in keys { return false; }
      keys := keys[id := TrustedKey(publicKey, id, deviceName, allowedTopics, true, now, 0)];
      if id >= nextId { nextId := Next32(id); }
      return true;
    }

    /**
      * The signature check is a parameter and runs without the lock: `meanwhile` is what other
      * threads change until the key is stamped.
      */
    method VerifyWithKey(id: nat, message: Bytes, signature: Bytes, now: nat,
                         verify: (Bytes, Bytes, PublicKey) -> bool, meanwhile: seq<Change>) returns (valid: bool)
      modifies this
      ensures valid <==> Active(old(View()), id) && verify(message, signature, old(keys)[id].publicKey)
      ensures View() == if !Active(old(View()), id) then old(View())
                        else AfterFrom(old(View()), meanwhile + if valid then [Touch(id, now)] else [])
    {
      if id !in keys || !keys[id].enabled { return false; }
      var pk := keys[id].publicKey;
      OthersChange(meanwhile);
      valid := verify(message, signature, pk);
      if valid {
        assert (meanwhile + [Touch(id, now)])[..|meanwhile|] == meanwhile;
        Stamp(id, now);
      } else {
        assert meanwhile + [] == meanwhile;
      }
    }

    method Stamp(id: nat, now: nat)
      modifies this
      ensures View() == Changed(old(View()), Touch(id, now))
    {
      if id in keys { keys := keys[id := keys[id].(lastUsed := now)]; }
    }

    /** Enabled or not. */
    method GetKeyInfo(id: nat) returns (info: Option<TrustedKey>)
      ensures info == if id in keys then Some(keys[id]) else None
    {
      if id !in keys { return None; }
      return Some(keys[id]);
    }

    /** What other threads do while this one does not hold the lock. */
    method OthersChange(changes: seq<Change>)
      modifies this
      ensures View() == AfterFrom(old(View()), changes)
    {
      for i := 0 to |changes|
        invariant View() == AfterFrom(old(View()), changes[..i])
      {
        assert changes[..i + 1][..i] == changes[..i];
        var r := Changed(Registry(keys, nextId), changes[i]);
        keys, nextId := r.keys, r.nextId;
      }
      assert changes[..|changes|] == changes;
    }

    method SetEnabled(id: nat, on: bool) returns (ok: bool)
      modifies this
      ensures ok <==> id in old(keys)
      ensures View() == Changed(old(View()), Enable(id, on))
    {
      if id !in keys { return false; }
      keys := keys[id := keys[id].(enabled := on)];
      return true;
    }

    method RemoveKey(id: nat) returns (ok: bool)
      modifies this
      ensures ok <==> id in old(keys)
      ensures View() == Changed(old(View()), Remove(id))
    {
      ok := id in keys;
      keys := keys - {id};
    }

    method ClearAll()
      modifies this
      ensures View() == EMPTY
    {
      keys, nextId := map[], 1;
    }
  }

  // ----- Allocation over runs -----

  function AfterFrom(r: Registry, cs: seq<Change>): Registry {
    if cs == [] then r else Changed(AfterFrom(r, cs[..|cs| - 1]), cs[|cs| - 1])
  }

  function After(cs: seq<Change>): Registry { AfterFrom(EMPTY, cs) }

  /** The id a change registers a key under, in the registry it finds. */
  function Registers(r: Registry, c: Change): Option<nat> {
    match c
    case Allocate(_) => Some(r.nextId)
    case Claim(id, _) => if id in r.keys then None else Some(id)
    case _ => None
  }

  /** Every id registered since the last clear, removed or not. */
  function Issued(cs: seq<Change>): set<nat> {
    if cs == [] then {}
    else
      var init, c := cs[..|cs| - 1], cs[|cs| - 1];
      if c.Clear? then {}
      else Issued(init) + match Registers(After(init), c) case None => {} case Some(id) => {id}
  }

  /** Ids are 32-bit numbers. */
  ghost predicate Ids32(cs: seq<Change>) {
    forall i :: 0 <= i < |cs| && cs[i].Claim? ==> cs[i].id < U32
  }

  const TOP: nat := U32 - 1

  /** The next id is above every id registered since the last clear. */
  ghost predicate NextIsAbove(cs: seq<Change>) {
    forall id :: id in Issued(cs) ==> id < After(cs).nextId
  }

  lemma {:induction false} IssuedCoversKeys(cs: seq<Change>)
    requires Ids32(cs)
    ensures After(cs).keys.Keys <= Issued(cs) && After(cs).nextId < U32
    ensures forall id :: id in Issued(cs) ==> id < U32
    ensures forall id :: id in After(cs).keys ==> After(cs).keys[id].keyId == id
    ensures NextIsAbove(cs) <==> TOP !in Issued(cs)
    ensures TOP !in Issued(cs) ==> After(cs).nextId == 1 || (After(cs).nextId > 1 && After(cs).nextId - 1 in Issued(cs))
    decreases |cs|
  {
    if cs != [] {
      IssuedCoversKeys(cs[..|cs| - 1]);
    }
  }

  /**
    * Over every run, the next id is above every id registered since the last clear if and
    * only if id 2^32 - 1 is not among them; it is then the one after the largest of them, or 1.
    */
  lemma NextIdIsFreshIff(cs: seq<Change>)
    requires Ids32(cs)
    ensures NextIsAbove(cs) <==> 0xFFFF_FFFF !in Issued(cs)
    ensures NextIsAbove(cs) ==> After(cs).nextId == 1 || (After(cs).nextId > 1 && After(cs).nextId - 1 in Issued(cs))
  {
    IssuedCoversKeys(cs);
  }

  /** So allocation then returns an id never registered since the last clear: it overwrites nothing and reissues nothing. */
  lemma AllocationIsFresh(cs: seq<Change>, key: TrustedKey)
    requires Ids32(cs) && TOP !in Issued(cs)
    ensures var id := After(cs).nextId;
            var keys' := After(cs + [Allocate(key)]).keys;
            && id !in Issued(cs) && id !in After(cs).keys && id in keys'
            && forall other :: other in After(cs).keys ==> other in keys' && keys'[other] == After(cs).keys[other]
  {
    IssuedCoversKeys(cs);
    assert (cs + [Allocate(key)])[..|cs|] == cs;
  }

  /** Claiming the last id wraps the counter, and two allocations later key 1 is overwritten. */
  lemma TopIdOverwrites(a: TrustedKey, top: TrustedKey, b: TrustedKey, c: TrustedKey)
    ensures var cs := [Allocate(a), Claim(U32 - 1, top), Allocate(b), Allocate(c)];
            1 in After(cs).keys && After(cs).keys[1] == c.(keyId := 1)
  {
    var r1 := Changed(EMPTY, Allocate(a));
    var r2 := Changed(r1, Claim(U32 - 1, top));
    var r3 := Changed(r2, Allocate(b));
    var r4 := Changed(r3, Allocate(c));
    var cs := [Allocate(a), Claim(U32 - 1, top), Allocate(b), Allocate(c)];
    assert cs[..3] == [Allocate(a), Claim(U32 - 1, top), Allocate(b)];
    assert cs[..3][..2] == [Allocate(a), Claim(U32 - 1, top)];
    assert cs[..3][..2][..1] == [Allocate(a)];
    assert cs[..3][..2][..1][..0] == [];
    assert AfterFrom(EMPTY, cs[..3][..2][..1]) == r1;
    assert AfterFrom(EMPTY, cs[..3][..2]) == r2;
    assert AfterFrom(EMPTY, cs[..3]) == r3;
    assert AfterFrom(EMPTY, cs) == r4;
  }

  // ----- Revocation -----

  /** No step registers a key under `id` or enables it. */
  ghost predicate NeverReinstates(r: Registry, cs: seq<Change>, id: nat) {
    cs == []
    || (&& NeverReinstates(r, cs[..|cs| - 1], id)
        && Registers(AfterFrom(r, cs[..|cs| - 1]), cs[|cs| - 1]) != Some(id)
        && cs[|cs| - 1] != Enable(id, true))
  }

  /** A disabled or removed key stays unusable until it is registered or enabled again, whatever else happens. */
  lemma {:induction false} RevocationLasts(r: Registry, cs: seq<Change>, id: nat)
    requires !Active(r, id) && NeverReinstates(r, cs, id)
    ensures !Active(AfterFrom(r, cs), id)
    decreases |cs|
  {
    if cs != [] {
      RevocationLasts(r, cs[..|cs| - 1], id);
    }
  }

  /** No step removes the key under `id` or registers another one there. */
  ghost predicate Leaves(r: Registry, cs: seq<Change>, id: nat) {
    cs == []
    || (&& Leaves(r, cs[..|cs| - 1], id)
        && cs[|cs| - 1] != Remove(id) && cs[|cs| - 1] != Clear
        && Registers(AfterFrom(r, cs[..|cs| - 1]), cs[|cs| - 1]) != Some(id))
  }

  /** A key nobody removes or replaces keeps its public key and its scope. */
  lemma {:induction false} LeftKeyKeepsScope(r: Registry, cs: seq<Change>, id: nat)
    requires id in r.keys && Leaves(r, cs, id)
    ensures var r' := AfterFrom(r, cs);
            && id in r'.keys && r'.keys[id].publicKey == r.keys[id].publicKey
            && r'.keys[id].allowedTopics == r.keys[id].allowedTopics
    decreases |cs|
  {
    if cs != [] {
      LeftKeyKeepsScope(r, cs[..|cs| - 1], id);
    }
  }

  lemma {:induction false} AfterFromAppend(r: Registry, cs: seq<Change>, more: seq<Change>)
    ensures AfterFrom(r, cs + more) == AfterFrom(AfterFrom(r, cs), more)
    decreases |more|
  {
    if more == [] {
      assert cs + more == cs;
    } else {
      var n := |more| - 1;
      AfterFromAppend(r, cs, more[..n]);
      assert (cs + more)[..|cs| + n] == cs + more[..n];
    }
  }

  // ----- The registry is its history -----

  /** Change `i` registers a key under `id`. */
  predicate RegistersAt(cs: seq<Change>, i: int, id: nat)
    requires 0 <= i < |cs|
  {
    Registers(After(cs[..i]), cs[i]) == Some(id)
  }

  predicate Removes(c: Change, id: nat) { c == Remove(id) || c == Clear }

  /** The key registered by change `i` is the one now under `id`. */
  ghost predicate HeldSince(cs: seq<Change>, i: int, id: nat) {
    && 0 <= i < |cs| && RegistersAt(cs, i, id)
    && forall j :: i < j < |cs| ==> !Removes(cs[j], id) && !RegistersAt(cs, j, id)
  }

  ghost predicate Held(cs: seq<Change>, id: nat) {
    exists i :: HeldSince(cs, i, id)
  }

  /** The flag set last after change `i`, `start` if none was. */
  function FlagSince(cs: seq<Change>, i: int, id: nat, start: bool): bool
    decreases |cs|
  {
    if |cs| - 1 <= i || cs == [] then start
    else if cs[|cs| - 1].Enable? && cs[|cs| - 1].id == id then cs[|cs| - 1].on
    else FlagSince(cs[..|cs| - 1], i, id, start)
  }

  /** The stamp set last after change `i`, `start` if none was. */
  function StampSince(cs: seq<Change>, i: int, id: nat, start: nat): nat
    decreases |cs|
  {
    if |cs| - 1 <= i || cs == [] then start
    else if cs[|cs| - 1].Touch? && cs[|cs| - 1].id == id then cs[|cs| - 1].now
    else StampSince(cs[..|cs| - 1], i, id, start)
  }

  lemma RegistersSnoc(cs: seq<Change>, c: Change, id: nat)
    ensures forall j :: 0 <= j < |cs| ==> (cs + [c])[j] == cs[j] && (RegistersAt(cs + [c], j, id) <==> RegistersAt(cs, j, id))
    ensures (cs + [c])[|cs|] == c && (RegistersAt(cs + [c], |cs|, id) <==> Registers(After(cs), c) == Some(id))
  {
    forall j | 0 <= j < |cs| ensures (cs + [c])[j] == cs[j] && (RegistersAt(cs + [c], j, id) <==> RegistersAt(cs, j, id)) {
      assert (cs + [c])[..j] == cs[..j];
    }
    assert (cs + [c])[..|cs|] == cs;
  }

  lemma HeldSinceSnoc(cs: seq<Change>, c: Change, i: int, id: nat)
    ensures HeldSince(cs + [c], i, id) <==>
            if Registers(After(cs), c) == Some(id) then i == |cs| else HeldSince(cs, i, id) && !Removes(c, id)
  {
    hide RegistersAt, After, Registers;
    RegistersSnoc(cs, c, id);
    var all := cs + [c];
    if HeldSince(all, i, id) && i < |cs| {
      assert !Removes(all[|cs|], id) && !RegistersAt(all, |cs|, id);
      assert forall j :: i < j < |cs| ==> !Removes(all[j], id) && !RegistersAt(all, j, id);
    }
  }

  lemma HeldSnoc(cs: seq<Change>, c: Change, id: nat)
    ensures Held(cs + [c], id) <==>
            Registers(After(cs), c) == Some(id) || (Held(cs, id) && !Removes(c, id))
  {
    hide HeldSince, After, Registers;
    forall i ensures HeldSince(cs + [c], i, id) <==>
                     if Registers(After(cs), c) == Some(id) then i == |cs| else HeldSince(cs, i, id) && !Removes(c, id) {
      HeldSinceSnoc(cs, c, i, id);
    }
    if Registers(After(cs), c) == Some(id) {
      assert HeldSince(cs + [c], |cs|, id);
    } else if Held(cs, id) && !Removes(c, id) {
      var i :| HeldSince(cs, i, id);
      assert HeldSince(cs + [c], i, id);
    }
  }

  /** The entry a registration made, with the flag and the stamp set since. */
  ghost predicate IsEntry(cs: seq<Change>, i: int, id: nat, entry: TrustedKey) {
    && 0 <= i < |cs| && (cs[i].Allocate? || cs[i].Claim?)
    && entry == TrustedKey(cs[i].key.publicKey, id, cs[i].key.deviceName, cs[i].key.allowedTopics,
                           FlagSince(cs, i, id, cs[i].key.enabled), cs[i].key.registeredAt,
                           StampSince(cs, i, id, cs[i].key.lastUsed))
  }

  /** What one change does to the entry under `id`. */
  lemma ChangedEntry(r: Registry, c: Change, id: nat)
    ensures id in Changed(r, c).keys <==> Registers(r, c) == Some(id) || (id in r.keys && !Removes(c, id))
    ensures Registers(r, c) == Some(id) ==>
              (c.Allocate? || c.Claim?) && Changed(r, c).keys[id] == c.key.(keyId := id)
    ensures Registers(r, c) != Some(id) && id in r.keys && !Removes(c, id) ==>
              Changed(r, c).keys[id] ==
                r.keys[id].(enabled := if c.Enable? && c.id == id then c.on else r.keys[id].enabled,
                            lastUsed := if c.Touch? && c.id == id then c.now else r.keys[id].lastUsed)
  {
  }

  lemma EntrySnoc(cs: seq<Change>, c: Change, i: int, id: nat, entry: TrustedKey)
    requires IsEntry(cs, i, id, entry)
    ensures IsEntry(cs + [c], i, id,
                    entry.(enabled := if c.Enable? && c.id == id then c.on else entry.enabled,
                           lastUsed := if c.Touch? && c.id == id then c.now else entry.lastUsed))
  {
    assert (cs + [c])[..|cs|] == cs && (cs + [c])[i] == cs[i];
  }

  /**
    * After every sequence of changes: a key is under an id if and only if some change registered
    * one there and nothing has removed it or cleared the registry since; and the entry holds the
    * public key, name and scope of the last such registration, with the flag and the stamp
    * set last.
    */
  lemma {:induction false} RegistryIsHistory(cs: seq<Change>)
    ensures forall id :: id in After(cs).keys <==> Held(cs, id)
    ensures forall id, i :: HeldSince(cs, i, id) ==> id in After(cs).keys && IsEntry(cs, i, id, After(cs).keys[id])
    decreases |cs|
  {
    hide HeldSince, Changed, Registers, IsEntry;
    if cs == [] {
      NothingHeld();
    } else {
      var n := |cs| - 1;
      var init, c := cs[..n], cs[n];
      RegistryIsHistory(init);
      assert cs == init + [c];
      forall id ensures id in After(cs).keys <==> Held(cs, id) {
        HeldSnoc(init, c, id);
        ChangedEntry(After(init), c, id);
      }
      forall id, i | HeldSince(cs, i, id) ensures id in After(cs).keys && IsEntry(cs, i, id, After(cs).keys[id]) {
        HeldSinceSnoc(init, c, i, id);
        ChangedEntry(After(init), c, id);
        if Registers(After(init), c) == Some(id) {
          NewEntry(init, c, id);
        } else {
          EntrySnoc(init, c, i, id, After(init).keys[id]);
        }
      }
    }
  }

  lemma NewEntry(cs: seq<Change>, c: Change, id: nat)
    requires c.Allocate? || c.Claim?
    ensures IsEntry(cs + [c], |cs|, id, c.key.(keyId := id))
  {
  }

  lemma NothingHeld()
    ensures forall id :: id !in After([]).keys
    ensures forall id, i :: !HeldSince([], i, id)
  {
  }

  /** A claim of an id under which a key is held changes nothing; any other puts its key there and leaves the rest. */
  lemma ClaimTakesFreeIds(cs: seq<Change>, id: nat, key: TrustedKey)
    ensures var keys := After(cs).keys;
            After(cs + [Claim(id, key)]).keys == if Held(cs, id) then keys else keys[id := key.(keyId := id)]
    ensures Held(cs, id) ==> After(cs + [Claim(id, key)]) == After(cs)
  {
    hide Held;
    RegistryIsHistory(cs);
    assert (cs + [Claim(id, key)])[..|cs|] == cs;
  }

  // ----- Usable keys -----

  /** Change `i` makes the key under `id` usable: a registration, or an enable while it is present. */
  predicate TurnsOn(cs: seq<Change>, i: int, id: nat)
    requires 0 <= i < |cs|
  {
    (RegistersAt(cs, i, id) && cs[i].key.enabled) || (cs[i] == Enable(id, true) && id in After(cs[..i]).keys)
  }

  predicate TurnsOff(cs: seq<Change>, i: int, id: nat)
    requires 0 <= i < |cs|
  {
    cs[i] == Enable(id, false) || Removes(cs[i], id) || (RegistersAt(cs, i, id) && !cs[i].key.enabled)
  }

  ghost predicate OnSince(cs: seq<Change>, i: int, id: nat) {
    0 <= i < |cs| && TurnsOn(cs, i, id) && forall j :: i < j < |cs| ==> !TurnsOff(cs, j, id)
  }

  lemma TurnsSnoc(cs: seq<Change>, c: Change, id: nat)
    ensures forall j :: 0 <= j < |cs| ==>
              (TurnsOn(cs + [c], j, id) <==> TurnsOn(cs, j, id)) && (TurnsOff(cs + [c], j, id) <==> TurnsOff(cs, j, id))
    ensures Active(After(cs + [c]), id) <==>
            TurnsOn(cs + [c], |cs|, id) || (Active(After(cs), id) && !TurnsOff(cs + [c], |cs|, id))
  {
    var all := cs + [c];
    forall j | 0 <= j < |cs| ensures (TurnsOn(all, j, id) <==> TurnsOn(cs, j, id)) && (TurnsOff(all, j, id) <==> TurnsOff(cs, j, id)) {
      assert all[..j] == cs[..j] && all[j] == cs[j];
    }
    assert all[..|cs|] == cs;
  }

  /**
    * After every sequence of changes, a key is usable if and only if the last change that made it
    * usable or unusable was a registration or an enable: none since disabled it, removed it or
    * cleared the registry.
    */
  lemma {:induction false} UsableIsHistory(cs: seq<Change>, id: nat)
    ensures Active(After(cs), id) <==> exists i :: OnSince(cs, i, id)
    decreases |cs|
  {
    hide TurnsOn, TurnsOff, Active, After;
    if cs == [] {
      NothingActive(id);
    } else {
      var n := |cs| - 1;
      var init := cs[..n];
      UsableIsHistory(init, id);
      assert cs == init + [cs[n]];
      TurnsSnoc(init, cs[n], id);
      if TurnsOn(cs, n, id) {
        assert OnSince(cs, n, id);
      } else if Active(After(init), id) && !TurnsOff(cs, n, id) {
        var i :| OnSince(init, i, id);
        assert OnSince(cs, i, id);
      }
      if i :| OnSince(cs, i, id) {
        if i < n { assert OnSince(init, i, id); }
      }
    }
  }

  lemma NothingActive(id: nat)
    ensures !Active(After([]), id)
  {
  }
}
