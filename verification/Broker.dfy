/**
  * The broker object: every method is the body held under the broker's mutex, working on
  * the storage layer and the per-client windows in place, and is tied to the state machine.
  */
module Broker {
  import opened ByteStrings
  import opened KeySpace
  import opened AckWindow
  import opened LmdbStorage
  import opened BrokerModel
  import opened Replay
  import T = TopicIndex
  import C = Connections

  class Broker {
    var persistence: LmdbStorage
    var currentSequence: nat
    var publishCount: nat
    var topicSubscribers: T.Index
    var clientAcks: map<Bytes, Window>  // windows are held by value
    var lastAckSeq: map<Bytes, nat>
    var sessions: seq<T.Session>
    var activeConnections: nat

    ghost predicate Valid()
      reads this, persistence
    {
      persistence.Valid() && forall c :: c in clientAcks ==> AckWindow.Valid(clientAcks[c])
    }

    ghost function View(): State
      reads this, persistence
    {
      State(persistence.model, currentSequence, publishCount, clientAcks, lastAckSeq)
    }

    constructor (storage: LmdbStorage)
      requires storage.Valid()
      ensures Valid() && persistence == storage && View() == Restarted(storage.model)
      ensures topicSubscribers == map[] && sessions == [] && activeConnections == 0
    {
      persistence := storage;
      publishCount := 0;
      topicSubscribers, clientAcks, lastAckSeq := map[], map[], map[];
      sessions, activeConnections := [], 0;
      currentSequence := 0;
      new;
      var last := persistence.GetLastSeq();
      currentSequence := last;
    }

    // ----- Publishing -----

    /** The receivers are returned in the order they are sent to. */
    method Publish(topic: Bytes, payload: Bytes, writes: Writes) returns (seqId: nat, receivers: seq<T.Session>)
      requires Valid()
      modifies this`currentSequence, this`publishCount, persistence
      ensures Valid()
      ensures View() == Published(persistence.separator, old(View()), topic, payload, writes)
      ensures seqId == currentSequence
      ensures multiset(receivers) == T.Fanout(topicSubscribers, topic)
    {
      hide Represents, AckWindow.Valid, CompactedTo;
      currentSequence := Add64(currentSequence, 1);
      seqId := currentSequence;
      persistence.Save(seqId, topic, payload, writes.save);
      publishCount := Add64(publishCount, 1);
      if publishCount % COMPACT_EVERY == 0 {
        RunCompactionIfDue(writes);
      }
      receivers := SendToSubscribers(topic);
    }

    /** Subscribers of the topic, then those of `#`. */
    method SendToSubscribers(topic: Bytes) returns (receivers: seq<T.Session>)
      ensures multiset(receivers) == T.Fanout(topicSubscribers, topic)
    {
      receivers := [];
      if topic in topicSubscribers {
        receivers := SendTo(receivers, topicSubscribers[topic]);
      }
      if T.HASH in topicSubscribers {
        receivers := SendTo(receivers, topicSubscribers[T.HASH]);
      }
    }

    method RunCompactionIfDue(writes: Writes)
      requires Valid()
      modifies persistence
      ensures Valid() && persistence.model == CompactedTo(old(persistence.model), currentSequence, writes)
    {
      hide Represents, AckWindow.Valid;
      if currentSequence <= MAX_STORED_MESSAGES { return; }
      var threshold := currentSequence - MAX_STORED_MESSAGES;
      persistence.Compact(threshold, writes.compact);
      persistence.PurgeOldAcks(threshold, writes.purge);
    }

    /** The fan-out loop over one subscriber set, in whatever order it is iterated. */
    method SendTo(before: seq<T.Session>, subscribers: set<T.Session>) returns (after: seq<T.Session>)
      ensures multiset(after) == multiset(before) + multiset(subscribers)
    {
      after := before;
      var todo := subscribers;
      while todo != {}
        invariant todo <= subscribers
        invariant multiset(after) == multiset(before) + multiset(subscribers - todo)
        decreases |todo|
      {
        var x :| x in todo;
        assert subscribers - (todo - {x}) == (subscribers - todo) + {x};
        after := after + [x];
        todo := todo - {x};
      }
      assert subscribers - todo == subscribers;
    }

    // ----- Subscriptions -----

    /**
      * Registration under the lock; `meanwhile` is what other sessions then do; and replay of
      * what is stored on the topic by then, up to number 100000.
      */
    method Subscribe(x: T.Session, topic: Bytes, meanwhile: seq<Event>) returns (replayed: Option<seq<Loaded>>)
      requires Valid() && Concurrent(meanwhile)
      modifies this`topicSubscribers, this`currentSequence, this`publishCount, this`clientAcks, this`lastAckSeq, persistence
      ensures Valid() && View() == StepAll(persistence.separator, old(View()), meanwhile)
      ensures topicSubscribers == T.Subscribed(old(topicSubscribers), x, topic)
      ensures var visited := Visited(persistence.db, 0, MAX_STORED_MESSAGES);
              replayed == if visited.None? then None else Some(Selected(Decoded(visited.value), topic, {}))
    {
      hide Represents, AckWindow.Valid, Step;
      var now := if topic in topicSubscribers then topicSubscribers[topic] else {};
      topicSubscribers := topicSubscribers[topic := now + {x}];
      OthersDo(meanwhile);
      replayed := ReplayMessages(topic, 0);
    }

    /** What other sessions do while this one does not hold the lock. */
    method OthersDo(evs: seq<Event>)
      requires Valid() && Concurrent(evs)
      modifies this`currentSequence, this`publishCount, this`clientAcks, this`lastAckSeq, persistence
      ensures Valid() && View() == StepAll(persistence.separator, old(View()), evs)
    {
      hide Represents, AckWindow.Valid, Published, Acknowledged, Registered;
      for i := 0 to |evs|
        invariant Valid() && View() == StepAll(persistence.separator, old(View()), evs[..i])
      {
        assert evs[..i + 1][..i] == evs[..i];
        match evs[i] {
          case Publish(topic, payload, writes) =>
            var id, receivers := Publish(topic, payload, writes);
          case Ack(client, s, commits) =>
            HandleAck(client, s, commits);
          case _ =>
        }
      }
      assert evs[..|evs|] == evs;
    }

    method ReplayMessages(topic: Bytes, fromSeq: nat) returns (sent: Option<seq<Loaded>>)
      requires Valid()
      ensures var visited := Visited(persistence.db, fromSeq, Add64(fromSeq, MAX_STORED_MESSAGES));
              sent == if visited.None? then None else Some(Selected(Decoded(visited.value), topic, {}))
    {
      hide Represents, AckWindow.Valid;
      var messages := persistence.LoadRange(fromSeq, Add64(fromSeq, MAX_STORED_MESSAGES));
      if messages.None? { return None; }
      var selected := SendOnTopic(messages.value, topic);
      return Some(selected);
    }

    /** The replay loop: every message on the topic. */
    method SendOnTopic(messages: seq<Loaded>, topic: Bytes) returns (sent: seq<Loaded>)
      ensures sent == Selected(messages, topic, {})
    {
      sent := [];
      for i := 0 to |messages|
        invariant sent == Selected(messages[..i], topic, {})
      {
        var e := messages[i];
        assert messages[..i + 1][..i] == messages[..i];
        if e.topic == topic {
          sent := sent + [e];
        }
      }
      assert messages[..|messages|] == messages;
    }

    method Unsubscribe(x: T.Session, topic: Bytes)
      requires Valid()
      modifies this`topicSubscribers
      ensures Valid() && View() == old(View())
      ensures topicSubscribers == T.Unsubscribed(old(topicSubscribers), x, topic)
    {
      hide Represents, AckWindow.Valid;
      if topic in topicSubscribers {
        topicSubscribers := topicSubscribers[topic := topicSubscribers[topic] - {x}];
        if topicSubscribers[topic] == {} {
          topicSubscribers := topicSubscribers - {topic};
        }
      }
    }

    /** Erases the session from every topic, drops topics left empty, and takes it off the list. */
    method RemoveSession(x: T.Session)
      requires Valid()
      modifies this`topicSubscribers, this`sessions, this`activeConnections
      ensures Valid() && View() == old(View())
      ensures topicSubscribers == T.Removed(old(topicSubscribers), x)
      ensures sessions == C.Without(old(sessions), x) && activeConnections == C.Dec64(old(activeConnections))
    {
      hide Represents, AckWindow.Valid;
      EraseFromTopics(x);
      DropEmptyTopics();
      var kept: seq<T.Session> := [];
      for i := 0 to |sessions|
        invariant sessions == old(sessions)
        invariant C.Without(sessions, x) == kept + C.Without(sessions[i..], x)
      {
        assert sessions[i..][1..] == sessions[i + 1..];
        if sessions[i] != x {
          kept := kept + [sessions[i]];
        }
      }
      sessions := kept;
      activeConnections := C.Dec64(activeConnections);
    }

    method EraseFromTopics(x: T.Session)
      modifies this`topicSubscribers
      ensures topicSubscribers == map t | t in old(topicSubscribers) :: old(topicSubscribers)[t] - {x}
    {
      var todo := topicSubscribers.Keys;
      while todo != {}
        invariant todo <= old(topicSubscribers).Keys == topicSubscribers.Keys
        invariant forall t :: t in topicSubscribers ==>
                    topicSubscribers[t] == if t in todo then old(topicSubscribers)[t] else old(topicSubscribers)[t] - {x}
        decreases |todo|
      {
        var t :| t in todo;
        topicSubscribers := topicSubscribers[t := topicSubscribers[t] - {x}];
        todo := todo - {t};
      }
    }

    method DropEmptyTopics()
      modifies this`topicSubscribers
      ensures topicSubscribers ==
                map t | t in old(topicSubscribers) && old(topicSubscribers)[t] != {} :: old(topicSubscribers)[t]
    {
      var todo := topicSubscribers.Keys;
      while todo != {}
        invariant todo <= old(topicSubscribers).Keys
        invariant topicSubscribers ==
                    map t | t in old(topicSubscribers) && (t in todo || old(topicSubscribers)[t] != {})
                      :: old(topicSubscribers)[t]
        decreases |todo|
      {
        var t :| t in todo;
        if topicSubscribers[t] == {} {
          topicSubscribers := topicSubscribers - {t};
        }
        todo := todo - {t};
      }
    }

    // ----- Acknowledgements -----

    method HandleAck(client: Bytes, s: nat, commits: bool)
      requires Valid() && s < U64
      modifies this`clientAcks, this`lastAckSeq, persistence
      ensures Valid()
      ensures View() == Acknowledged(old(View()), client, s, commits)
    {
      hide Represents, AckWindow.Valid, Inserted;
      EmptyIsValid();
      var acks := new BoundedAckSet.Of(if client in clientAcks then clientAcks[client] else EMPTY);
      InsertedValid(acks.View(), s);
      acks.Insert(s);
      clientAcks := clientAcks[client := Window(acks.order, acks.lookup, acks.maxSeq)];
      var last := if client in lastAckSeq then lastAckSeq[client] else 0;
      if s > last { last := s; }
      lastAckSeq := lastAckSeq[client := last];
      persistence.SaveAck(client, s, commits);
    }

    method GetLastAck(client: Bytes) returns (last: nat)
      requires Valid()
      ensures last == LastAck(View(), client)
    {
      last := if client in lastAckSeq then lastAckSeq[client] else 0;
    }

    method IsAckedBy(client: Bytes, s: nat) returns (b: bool)
      requires Valid()
      ensures b <==> IsAcked(View(), client, s)
    {
      if client !in clientAcks { return false; }
      b := s in clientAcks[client].lookup;
    }

    /** Loads the stored ACKs into the window; the iteration order is returned. */
    method RegisterClient(client: Bytes) returns (ghost loaded: seq<nat>)
      requires Valid()
      modifies this`clientAcks, this`lastAckSeq
      ensures Valid()
      ensures forall s :: s in loaded <==> s in LoadedAcks(persistence.model.acks, client)
      ensures View() == Registered(old(View()), client, loaded)
    {
      hide Represents, AckWindow.Valid, InsertedAll, LoadedAcks;
      EmptyIsValid();
      var acks := persistence.LoadAcks(client);
      var bounded := new BoundedAckSet.Of(if client in clientAcks then clientAcks[client] else EMPTY);
      loaded := InsertAll(bounded, acks);
      clientAcks := clientAcks[client := Window(bounded.order, bounded.lookup, bounded.maxSeq)];
      if bounded.lookup != {} {
        lastAckSeq := lastAckSeq[client := bounded.maxSeq];
      }
    }

    /** The loading loop, in whatever order the set is iterated. */
    method InsertAll(w: BoundedAckSet, acks: set<nat>) returns (ghost order: seq<nat>)
      requires AckWindow.Valid(w.View())
      modifies w
      ensures forall s :: s in order <==> s in acks
      ensures w.View() == InsertedAll(old(w.View()), order) && AckWindow.Valid(w.View())
    {
      order := [];
      var todo := acks;
      while todo != {}
        invariant todo <= acks && AckWindow.Valid(w.View())
        invariant forall s :: s in order <==> s in acks - todo
        invariant w.View() == InsertedAll(old(w.View()), order)
        decreases |todo|
      {
        var s :| s in todo;
        InsertedValid(w.View(), s);
        w.Insert(s);
        assert (order + [s])[..|order|] == order;
        order := order + [s];
        todo := todo - {s};
      }
    }

    /**
      * The last ACK is read under the lock, then the messages are loaded, then the window is
      * asked about each, with other sessions at work in every gap.
      */
    method ReplayMessagesForClient(topic: Bytes, client: Bytes, loading: seq<Event>, asking: nat -> seq<Event>)
        returns (sent: Option<seq<Loaded>>, ghost file: map<Bytes, Bytes>, ghost asked: seq<set<nat>>)
      requires Valid() && Concurrent(loading) && forall i: nat :: Concurrent(asking(i))
      modifies this`currentSequence, this`publishCount, this`clientAcks, this`lastAckSeq, persistence
      ensures Valid()
      ensures var last := LastAck(old(View()), client);
              var loaded := StepAll(persistence.separator, old(View()), loading);
              var visited := Visited(file, ReplayFrom(last), ReplayTo(last));
              && Represents(file, loaded.store)
              && (visited.None? ==> sent == None && View() == loaded)
              && (visited.Some? ==>
                    var messages := Decoded(visited.value);
                    && AskedDuring(persistence.separator, loaded, client, asking, asked) && |asked| == |messages|
                    && View() == StepAll(persistence.separator, loaded, Before(asking, |messages|))
                    && sent == Some(SelectedAsking(messages, topic, asked)))
    {
      hide Represents, AckWindow.Valid, StepAll, Visited, Decoded, SelectedAsking, AskedDuring;
      asked := [];
      var last := GetLastAck(client);
      OthersDo(loading);
      file := persistence.db;
      var messages := persistence.LoadRange(ReplayFrom(last), ReplayTo(last));
      if messages.None? { return None, file, asked; }
      var selected;
      selected, asked := SendUnacked(messages.value, topic, client, asking);
      return Some(selected), file, asked;
    }

    /** The client's replay loop: messages on the topic that the client's window lacks when it is asked about them. */
    method SendUnacked(messages: seq<Loaded>, topic: Bytes, client: Bytes, asking: nat -> seq<Event>)
        returns (sent: seq<Loaded>, ghost asked: seq<set<nat>>)
      requires Valid() && forall i: nat :: Concurrent(asking(i))
      modifies this`currentSequence, this`publishCount, this`clientAcks, this`lastAckSeq, persistence
      ensures Valid() && |asked| == |messages|
      ensures View() == StepAll(persistence.separator, old(View()), Before(asking, |messages|))
      ensures AskedDuring(persistence.separator, old(View()), client, asking, asked)
      ensures sent == SelectedAsking(messages, topic, asked)
    {
      hide Represents, AckWindow.Valid, StepAll, Step, Before, AskedDuring, SelectedAsking;
      sent, asked := [], [];
      NothingAsked(persistence.separator, View(), client, asking, topic);
      for i := 0 to |messages|
        invariant Valid() && |asked| == i
        invariant View() == StepAll(persistence.separator, old(View()), Before(asking, i))
        invariant AskedDuring(persistence.separator, old(View()), client, asking, asked)
        invariant sent == SelectedAsking(messages[..i], topic, asked)
      {
        var e := messages[i];
        BeforeNext(persistence.separator, old(View()), asking, i);
        OthersDo(asking(i));
        ghost var window := WindowOf(View(), client).lookup;
        AskedNext(persistence.separator, old(View()), client, asking, asked, window);
        AskingSnoc(messages[..i], e, topic, asked, window);
        assert messages[..i + 1] == messages[..i] + [e];
        if e.topic == topic {
          var acked := IsAckedBy(client, e.seqId);
          if !acked { sent := sent + [e]; }
        }
        asked := asked + [window];
      }
      assert messages[..|messages|] == messages;
    }
  }

  /** What sessions make the broker do at any time: publishes and ACKs. */
  predicate Concurrent(evs: seq<Event>) {
    forall i :: 0 <= i < |evs| ==> evs[i].Publish? || (evs[i].Ack? && evs[i].seqId < U64)
  }

  /** Everything other sessions do before message `n` is asked about. */
  function Before(asking: nat -> seq<Event>, n: nat): seq<Event> {
    if n == 0 then [] else Before(asking, n - 1) + asking(n - 1)
  }

  /** The windows of the client when it is asked about message 0, 1, ... */
  ghost predicate AskedDuring(sep: Bytes, st: State, client: Bytes, asking: nat -> seq<Event>, asked: seq<set<nat>>) {
    forall i :: 0 <= i < |asked| ==> asked[i] == WindowOf(StepAll(sep, st, Before(asking, i + 1)), client).lookup
  }

  lemma NothingAsked(sep: Bytes, st: State, client: Bytes, asking: nat -> seq<Event>, topic: Bytes)
    ensures StepAll(sep, st, Before(asking, 0)) == st && AskedDuring(sep, st, client, asking, [])
    ensures SelectedAsking([], topic, []) == []
  {
  }

  lemma BeforeNext(sep: Bytes, st: State, asking: nat -> seq<Event>, i: nat)
    ensures StepAll(sep, st, Before(asking, i + 1)) == StepAll(sep, StepAll(sep, st, Before(asking, i)), asking(i))
  {
    hide StepAll;
    StepAllAppend(sep, st, Before(asking, i), asking(i));
  }

  lemma AskedNext(sep: Bytes, st: State, client: Bytes, asking: nat -> seq<Event>, asked: seq<set<nat>>, window: set<nat>)
    requires AskedDuring(sep, st, client, asking, asked)
    requires window == WindowOf(StepAll(sep, st, Before(asking, |asked| + 1)), client).lookup
    ensures AskedDuring(sep, st, client, asking, asked + [window])
  {
    hide StepAll, Before;
  }

  lemma EmptyIsValid()
    ensures AckWindow.Valid(EMPTY)
  {
  }
}
