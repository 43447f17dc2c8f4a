/**
  * The broker's persistent and ACK state as a state machine: one step per mutex-held
  * body.  Histories carry what a run has done, for stating properties over whole runs.
  */
module BrokerModel {
  import opened ByteStrings
  import opened KeySpace
  import opened AckWindow

  const MAX_STORED_MESSAGES: nat := 100000
  const COMPACT_EVERY: nat := 1000

  datatype State = State(
    store: Store, current: nat, publishCount: nat,
    windows: map<Bytes, Window>, lastAck: map<Bytes, nat>)

  /** Which of the transactions of a publish commit: the save and, when compaction is due, its two deletions. */
  datatype Writes = Writes(save: bool, compact: bool, purge: bool)

  const COMMITTED := Writes(true, true, true)

  datatype Event =
    | Publish(topic: Bytes, payload: Bytes, writes: Writes)
    | Ack(client: Bytes, seqId: nat, commits: bool)
    | Register(client: Bytes, loaded: seq<nat>)  // the loaded ACKs in iteration order
    | Restart

  function LastAck(st: State, client: Bytes): nat {
    if client in st.lastAck then st.lastAck[client] else 0
  }

  function WindowOf(st: State, client: Bytes): Window {
    if client in st.windows then st.windows[client] else EMPTY
  }

  predicate IsAcked(st: State, client: Bytes, s: nat) {
    s in WindowOf(st, client).lookup
  }

  // ----- Steps -----

  /** Messages and ACKs are purged with one threshold. */
  function CompactedTo(store: Store, current: nat, writes: Writes): Store {
    if current <= MAX_STORED_MESSAGES then store
    else
      var t := current - MAX_STORED_MESSAGES;
      var compacted := if writes.compact then Compacted(store, t) else store;
      if writes.purge then AcksPurged(compacted, t) else compacted
  }

  function Published(sep: Bytes, st: State, topic: Bytes, payload: Bytes, writes: Writes): State {
    var current := Add64(st.current, 1);
    var count := Add64(st.publishCount, 1);
    var saved := if writes.save then Saved(st.store, Record(sep, topic, payload)) else st.store;
    st.(current := current, publishCount := count,
        store := if count % COMPACT_EVERY == 0 then CompactedTo(saved, current, writes) else saved)
  }

  function Acknowledged(st: State, client: Bytes, s: nat, commits: bool): State {
    st.(windows := st.windows[client := Inserted(WindowOf(st, client), s)],
        lastAck := st.lastAck[client := if s > LastAck(st, client) then s else LastAck(st, client)],
        store := if commits then AckSaved(st.store, client, s) else st.store)
  }

  function Registered(st: State, client: Bytes, loaded: seq<nat>): State {
    var w := InsertedAll(WindowOf(st, client), loaded);
    st.(windows := st.windows[client := w],
        lastAck := if w.lookup == {} then st.lastAck else st.lastAck[client := w.maxSeq])
  }

  /** A new process on the same store. */
  function Restarted(store: Store): State {
    State(store, store.last, 0, map[], map[])
  }

  function Step(sep: Bytes, st: State, ev: Event): State {
    match ev
    case Publish(topic, payload, writes) => Published(sep, st, topic, payload, writes)
    case Ack(client, s, commits) => Acknowledged(st, client, s, commits)
    case Register(client, loaded) => Registered(st, client, loaded)
    case Restart => Restarted(st.store)
  }

  function StepAll(sep: Bytes, st: State, evs: seq<Event>): State {
    if evs == [] then st else Step(sep, StepAll(sep, st, evs[..|evs| - 1]), evs[|evs| - 1])
  }

  lemma {:induction false} StepAllAppend(sep: Bytes, st: State, evs: seq<Event>, more: seq<Event>)
    ensures StepAll(sep, st, evs + more) == StepAll(sep, StepAll(sep, st, evs), more)
    decreases |more|
  {
    hide Step;
    if more == [] {
      assert evs + more == evs;
    } else {
      var n := |more| - 1;
      StepAllAppend(sep, st, evs, more[..n]);
      assert (evs + more)[..|evs| + n] == evs + more[..n];
    }
  }

  // ----- Runs -----

  /** A published message and the number publish returned for it. */
  datatype Sent = Sent(seqId: nat, topic: Bytes, payload: Bytes)

  datatype History = History(
    state: State,
    sent: seq<Sent>,            // every publish, in order
    acked: set<(Bytes, nat)>,   // every ACK, across restarts
    registered: set<Bytes>,     // clients registered since the last restart
    restarts: nat)

  function Next(sep: Bytes, h: History, ev: Event): History {
    var h' := h.(state := Step(sep, h.state, ev));
    match ev
    case Publish(topic, payload, _) => h'.(sent := h.sent + [Sent(h'.state.current, topic, payload)])
    case Ack(client, s, _) => h'.(acked := h.acked + {(client, s)})
    case Register(client, _) => h'.(registered := h.registered + {client})
    case Restart => h'.(registered := {}, restarts := h.restarts + 1)
  }

  /** What the environment may do: numbers are 64-bit, the counter does not wrap, loading lists the loaded set. */
  ghost predicate Allowed(h: History, ev: Event) {
    match ev
    case Publish(_, _, _) => h.state.current + 1 < U64
    case Ack(_, s, _) => s < U64
    case Register(client, loaded) => forall s :: s in loaded <==> s in LoadedAcks(h.state.store.acks, client)
    case Restart => true
  }

  predicate Commits(ev: Event) {
    match ev
    case Publish(_, _, writes) => writes == COMMITTED
    case Ack(_, _, commits) => commits
    case _ => true
  }

  function Run(sep: Bytes, h: History, evs: seq<Event>): History {
    if evs == [] then h else Next(sep, Run(sep, h, evs[..|evs| - 1]), evs[|evs| - 1])
  }

  ghost predicate ValidRun(sep: Bytes, h: History, evs: seq<Event>) {
    evs == [] || (ValidRun(sep, h, evs[..|evs| - 1]) && Allowed(Run(sep, h, evs[..|evs| - 1]), evs[|evs| - 1]))
  }

  /** A run in which every write commits. */
  ghost predicate CommittedRun(sep: Bytes, h: History, evs: seq<Event>) {
    ValidRun(sep, h, evs) && forall i :: 0 <= i < |evs| ==> Commits(evs[i])
  }

  lemma CommittedPrefix(sep: Bytes, h: History, evs: seq<Event>)
    requires evs != [] && CommittedRun(sep, h, evs)
    ensures CommittedRun(sep, h, evs[..|evs| - 1]) && Commits(evs[|evs| - 1])
  {
  }

  lemma CommittedSnoc(sep: Bytes, h: History, evs: seq<Event>, ev: Event)
    requires CommittedRun(sep, h, evs) && Allowed(Run(sep, h, evs), ev) && Commits(ev)
    ensures CommittedRun(sep, h, evs + [ev])
    ensures Run(sep, h, evs + [ev]) == Next(sep, Run(sep, h, evs), ev)
  {
    assert (evs + [ev])[..|evs|] == evs;
  }

  const FRESH := History(Restarted(EMPTY_STORE), [], {}, {}, 0)
}
