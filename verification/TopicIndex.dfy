/**
  * The topic index: which sessions a topic's messages go to, and the history it reflects.
  */
module TopicIndex {
  import opened ByteStrings

  type Session = nat

  type Index = map<Bytes, set<Session>>

  const HASH: Bytes := [35]  // "#"

  function Subscribers(idx: Index, topic: Bytes): set<Session> {
    if topic in idx then idx[topic] else {}
  }

  function Subscribed(idx: Index, x: Session, topic: Bytes): Index {
    idx[topic := Subscribers(idx, topic) + {x}]
  }

  function Unsubscribed(idx: Index, x: Session, topic: Bytes): Index {
    if topic !in idx then idx
    else if idx[topic] - {x} == {} then idx - {topic}
    else idx[topic := idx[topic] - {x}]
  }

  function Removed(idx: Index, x: Session): Index {
    map t | t in idx && idx[t] - {x} != {} :: idx[t] - {x}
  }

  /** Who receives a publish, and how often: the topic's subscribers, then those of `#`. */
  function Fanout(idx: Index, topic: Bytes): multiset<Session> {
    multiset(Subscribers(idx, topic)) + multiset(Subscribers(idx, HASH))
  }

  /** Once for the topic subscription plus once for the `#` subscription. */
  lemma FanoutCount(idx: Index, topic: Bytes, x: Session)
    ensures Fanout(idx, topic)[x]
            == (if x in Subscribers(idx, topic) then 1 else 0) + (if x in Subscribers(idx, [35]) then 1 else 0)
  {
  }

  // ----- History -----

  datatype Change = Subscribe(x: Session, topic: Bytes) | Unsubscribe(x: Session, topic: Bytes) | Remove(x: Session)

  function Changed(idx: Index, c: Change): Index {
    match c
    case Subscribe(x, t) => Subscribed(idx, x, t)
    case Unsubscribe(x, t) => Unsubscribed(idx, x, t)
    case Remove(x) => Removed(idx, x)
  }

  function After(cs: seq<Change>): Index {
    if cs == [] then map[] else Changed(After(cs[..|cs| - 1]), cs[|cs| - 1])
  }

  predicate Ends(c: Change, x: Session, topic: Bytes) {
    c == Unsubscribe(x, topic) || c == Remove(x)
  }

  /** The subscription the history implies: subscribed at some point, and not ended since. */
  ghost predicate HoldsSince(cs: seq<Change>, x: Session, topic: Bytes, i: int) {
    0 <= i < |cs| && cs[i] == Subscribe(x, topic) && forall j :: i < j < |cs| ==> !Ends(cs[j], x, topic)
  }

  ghost predicate Holds(cs: seq<Change>, x: Session, topic: Bytes) {
    exists i :: HoldsSince(cs, x, topic, i)
  }

  lemma HoldsSnoc(cs: seq<Change>, c: Change, x: Session, topic: Bytes)
    ensures Holds(cs + [c], x, topic) <==> c == Subscribe(x, topic) || (Holds(cs, x, topic) && !Ends(c, x, topic))
  {
    var cs' := cs + [c];
    if c == Subscribe(x, topic) {
      assert HoldsSince(cs', x, topic, |cs|);
    } else if Holds(cs, x, topic) && !Ends(c, x, topic) {
      var i :| HoldsSince(cs, x, topic, i);
      assert HoldsSince(cs', x, topic, i);
    } else if Holds(cs', x, topic) {
      var i :| HoldsSince(cs', x, topic, i);
      assert i < |cs| && !Ends(cs'[|cs|], x, topic);
      forall j | i < j < |cs| ensures !Ends(cs[j], x, topic) {
        assert !Ends(cs'[j], x, topic);
      }
      assert HoldsSince(cs, x, topic, i);
    }
  }

  lemma ChangedSubscribers(idx: Index, c: Change, x: Session, topic: Bytes)
    ensures x in Subscribers(Changed(idx, c), topic)
            <==> c == Subscribe(x, topic) || (x in Subscribers(idx, topic) && !Ends(c, x, topic))
  {
    if c.Remove? {
      if topic in idx && x in idx[topic] && c.x != x {
        assert x in idx[topic] - {c.x};
      }
    } else if c.Unsubscribe? && c.topic == topic && topic in idx {
      if x in idx[topic] && c.x != x { assert x in idx[topic] - {c.x}; }
    }
  }

  /**
    * After every history the index is the relation the history implies, and holds no topic
    * without subscribers.
    */
  lemma {:induction false} IndexIsHistory(cs: seq<Change>)
    ensures forall x, t :: x in Subscribers(After(cs), t) <==> Holds(cs, x, t)
    ensures forall t :: t in After(cs) ==> After(cs)[t] != {}
    decreases |cs|
  {
    hide Holds, Subscribers, Changed, Ends;
    if cs == [] {
      NothingHolds();
    } else {
      var n := |cs| - 1;
      IndexIsHistory(cs[..n]);
      assert cs == cs[..n] + [cs[n]];
      forall x, t ensures x in Subscribers(After(cs), t) <==> Holds(cs, x, t) {
        HoldsSnoc(cs[..n], cs[n], x, t);
        ChangedSubscribers(After(cs[..n]), cs[n], x, t);
      }
      NoEmptyTopics(After(cs[..n]), cs[n]);
    }
  }

  lemma NothingHolds()
    ensures forall x, t :: x !in Subscribers(After([]), t) && !Holds([], x, t)
  {
  }

  lemma NoEmptyTopics(idx: Index, c: Change)
    requires forall t :: t in idx ==> idx[t] != {}
    ensures forall t :: t in Changed(idx, c) ==> Changed(idx, c)[t] != {}
  {
    if c.Subscribe? {
      assert c.x in Subscribed(idx, c.x, c.topic)[c.topic];
    }
  }

  /** Once removed, and as long as it does not subscribe again, a session is sent nothing. */
  lemma RemovedGetsNothing(before: seq<Change>, x: Session, later: seq<Change>, topic: Bytes)
    requires forall i :: 0 <= i < |later| ==> !(later[i].Subscribe? && later[i].x == x)
    ensures Fanout(After(before + [Remove(x)] + later), topic)[x] == 0
    ensures forall t :: x !in Subscribers(After(before + [Remove(x)] + later), t)
  {
    hide After, Subscribers;
    var cs := before + [Remove(x)] + later;
    IndexIsHistory(cs);
    assert cs[|before|] == Remove(x);
    assert forall i :: |before| < i < |cs| ==> cs[i] == later[i - |before| - 1];
    assert forall t :: Ends(cs[|before|], x, t);
    assert forall t :: x !in Subscribers(After(cs), t);
    FanoutCount(After(cs), topic, x);
  }
}
