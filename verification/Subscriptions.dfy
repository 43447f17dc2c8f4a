/**
  * Who is subscribed to what, read off the frames and commands of all sessions.
  */
module Subscriptions {
  import opened ByteStrings
  import opened Admission
  import opened Commands
  import opened SessionRuns
  import B = BinaryProtocol
  import R = Resp
  import T = TopicIndex

  /** What a step makes its session do. */
  function EffectsOf(w: World, verify: Verify, s: Step): seq<Effect> {
    match s
    case OnKeys(_) => []
    case OnFrame(x, f, now, m) =>
      Handle(DeskOf(w, x), w.registry, RegistryAfter(w.registry, verify, f, now, m), verify, f).effects
    case OnCommand(x, v) => HandleCommand(DeskOf(w, x).clientId, v)
  }

  /** The broker's part: subscribe and unsubscribe calls change the index. */
  function Applied(idx: T.Index, x: nat, e: Effect): T.Index {
    match e
    case Subscribe(t) => T.Changed(idx, T.Subscribe(x, t))
    case Unsubscribe(t) => T.Changed(idx, T.Unsubscribe(x, t))
    case _ => idx
  }

  function AppliedAll(idx: T.Index, x: nat, es: seq<Effect>): T.Index {
    if es == [] then idx else Applied(AppliedAll(idx, x, es[..|es| - 1]), x, es[|es| - 1])
  }

  function Actor(s: Step): nat { if s.OnKeys? then 0 else s.session }

  /** The index after a run of any sessions. */
  function IndexAfter(w: World, verify: Verify, steps: seq<Step>): T.Index {
    if steps == [] then map[]
    else
      var init, s := steps[..|steps| - 1], steps[|steps| - 1];
      AppliedAll(IndexAfter(w, verify, init), Actor(s), EffectsOf(RunAll(w, verify, init), verify, s))
  }

  // ----- What a step asks for -----

  /** The topic of a subscribe frame: all of it, or the part after the client id and its NUL. */
  ghost predicate NamesTopic(text: Bytes, t: Bytes) {
    (0 !in text && text == t) || exists client :: WithClient(text, client, t)
  }

  predicate WithClient(text: Bytes, client: Bytes, t: Bytes) { 0 !in client && text == client + [0] + t }

  ghost predicate Lists(v: R.RespValue, t: Bytes) {
    v.Array? && exists k :: 1 <= k < |v.elems| && AsString(v.elems[k]) == t
  }

  ghost predicate SubscribesTo(s: Step, x: nat, t: Bytes) {
    match s
    case OnKeys(_) => false
    case OnFrame(y, f, _, _) => y == x && f.command == 1 && NamesTopic(f.topic, t)
    case OnCommand(y, v) => y == x && Is(v, "SUBSCRIBE") && Lists(v, t)
  }

  ghost predicate UnsubscribesFrom(s: Step, x: nat, t: Bytes) {
    match s
    case OnKeys(_) => false
    case OnFrame(y, f, _, _) => y == x && f.command == 2 && f.topic == t
    case OnCommand(y, v) => y == x && Is(v, "UNSUBSCRIBE") && Lists(v, t)
  }

  /** Step `i` subscribed the session and none since unsubscribed it. */
  ghost predicate SubscribedSince(steps: seq<Step>, x: nat, t: Bytes, i: int) {
    0 <= i < |steps| && SubscribesTo(steps[i], x, t) && forall j :: i < j < |steps| ==> !UnsubscribesFrom(steps[j], x, t)
  }

  // ----- One step -----

  /** Neither subscribes nor unsubscribes. */
  predicate LeavesIndex(e: Effect) { !e.Subscribe? && !e.Unsubscribe? }

  lemma AppliedSnoc(idx: T.Index, x: nat, es: seq<Effect>, e: Effect)
    ensures AppliedAll(idx, x, es + [e]) == Applied(AppliedAll(idx, x, es), x, e)
  {
    assert (es + [e])[..|es|] == es;
  }

  lemma {:induction false} CallsDecide(idx: T.Index, x: nat, es: seq<Effect>)
    ensures AppliedAll(idx, x, es) == AppliedAll(idx, x, Calls(es))
    decreases |es|
  {
    if es != [] {
      var n := |es| - 1;
      CallsDecide(idx, x, es[..n]);
      AppliedSnoc(idx, x, Calls(es[..n]), es[n]);
      assert Calls(es[..n]) + [] == Calls(es[..n]);
    }
  }

  lemma {:induction false} IndexLeft(idx: T.Index, x: nat, es: seq<Effect>)
    requires forall i :: 0 <= i < |es| ==> LeavesIndex(es[i])
    ensures AppliedAll(idx, x, es) == idx
    decreases |es|
  {
    if es != [] { IndexLeft(idx, x, es[..|es| - 1]); }
  }

  /** The step adds who subscribes and takes out who unsubscribes. */
  ghost predicate Steps(idx: T.Index, idx': T.Index, s: Step) {
    forall x, t :: x in T.Subscribers(idx', t) <==>
      SubscribesTo(s, x, t) || (x in T.Subscribers(idx, t) && !UnsubscribesFrom(s, x, t))
  }

  lemma AppliedSubscribers(idx: T.Index, y: nat, e: Effect, x: nat, t: Bytes)
    ensures x in T.Subscribers(Applied(idx, y, e), t) <==>
            (e.Subscribe? && x == y && e.topic == t)
            || (x in T.Subscribers(idx, t) && !(e.Unsubscribe? && x == y && e.topic == t))
  {
    hide T.Subscribers, T.Changed;
    if e.Subscribe? {
      T.ChangedSubscribers(idx, T.Subscribe(y, e.topic), x, t);
    } else if e.Unsubscribe? {
      T.ChangedSubscribers(idx, T.Unsubscribe(y, e.topic), x, t);
    }
  }

  lemma OneCall(idx: T.Index, x: nat, e: Effect)
    ensures AppliedAll(idx, x, [e]) == Applied(idx, x, e)
  {
    assert [e][..0] == [];
  }

  /** The topic a subscribe frame is handled under. */
  function TopicIn(text: Bytes): Bytes {
    if Find(text, 0) < |text| then text[Find(text, 0) + 1..] else text
  }

  lemma AfterClient(text: Bytes, client: Bytes, t: Bytes)
    requires WithClient(text, client, t)
    ensures TopicIn(text) == t && 0 in text
  {
    hide Find;
    FindAfter(client, 0, t);
    assert text[|client|] == 0;
  }

  lemma TopicIsNamed(text: Bytes)
    ensures NamesTopic(text, TopicIn(text))
  {
    hide Find;
    FindSpec(text, 0);
    var sep := Find(text, 0);
    if sep < |text| {
      assert text == text[..sep] + [0] + text[sep + 1..];
      assert WithClient(text, text[..sep], text[sep + 1..]);
    } else {
      assert text[..sep] == text;
    }
  }

  lemma WholeTopic(text: Bytes)
    requires 0 !in text
    ensures TopicIn(text) == text
  {
    hide Find;
    FindSpec(text, 0);
  }

  /** The part after the first NUL is the topic, and no other. */
  lemma TopicAfterNul(text: Bytes, t: Bytes)
    ensures NamesTopic(text, t) <==> t == TopicIn(text)
  {
    hide TopicIn, WithClient;
    TopicIsNamed(text);
    if 0 !in text { WholeTopic(text); }
    if client :| WithClient(text, client, t) { AfterClient(text, client, t); }
  }

  lemma SubscribeFrameSteps(idx: T.Index, w: World, verify: Verify, s: Step)
    requires s.OnFrame? && s.frame.command == 1
    ensures Steps(idx, AppliedAll(idx, s.session, EffectsOf(w, verify, s)), s)
  {
    hide Applied, AppliedAll, T.Subscribers, NamesTopic, EffectsOf, TopicIn;
    var topic, idx' := TopicIn(s.frame.topic), AppliedAll(idx, s.session, EffectsOf(w, verify, s));
    SubscribeCalls(idx, w, verify, s);
    forall x, t ensures x in T.Subscribers(idx', t) <==>
                        SubscribesTo(s, x, t) || (x in T.Subscribers(idx, t) && !UnsubscribesFrom(s, x, t)) {
      AppliedSubscribers(idx, s.session, Subscribe(topic), x, t);
      TopicAfterNul(s.frame.topic, t);
    }
  }

  predicate Around(es: seq<Effect>, before: seq<Effect>, call: Effect, rest: seq<Effect>) {
    && es == before + [call] + rest
    && (forall i :: 0 <= i < |before| ==> LeavesIndex(before[i])) && forall i :: 0 <= i < |rest| ==> LeavesIndex(rest[i])
  }

  /** The effects of a subscribe frame around its one subscribe call. */
  lemma SubscribeEffects(w: World, verify: Verify, s: Step) returns (before: seq<Effect>, rest: seq<Effect>)
    requires s.OnFrame? && s.frame.command == 1
    ensures Around(EffectsOf(w, verify, s), before, Subscribe(TopicIn(s.frame.topic)), rest)
  {
    hide Find, B.AckFrame, RegistryAfter;
    var f, ack := s.frame, SendBinary(B.AckFrame(s.frame.sequence));
    var sep := Find(f.topic, 0);
    if sep < |f.topic| {
      var client := f.topic[..sep];
      before, rest := [RegisterClient(client)], [ReplayForClient(TopicIn(f.topic), client), ack];
    } else {
      before, rest := [], [ack];
    }
  }

  lemma {:induction false} AppliedAppend(idx: T.Index, x: nat, es: seq<Effect>, more: seq<Effect>)
    ensures AppliedAll(idx, x, es + more) == AppliedAll(AppliedAll(idx, x, es), x, more)
    decreases |more|
  {
    hide Applied;
    if more == [] {
      assert es + more == es;
    } else {
      var n := |more| - 1;
      AppliedAppend(idx, x, es, more[..n]);
      assert (es + more)[..|es| + n] == es + more[..n];
    }
  }

  lemma SubscribeCalls(idx: T.Index, w: World, verify: Verify, s: Step)
    requires s.OnFrame? && s.frame.command == 1
    ensures AppliedAll(idx, s.session, EffectsOf(w, verify, s)) == Applied(idx, s.session, Subscribe(TopicIn(s.frame.topic)))
  {
    hide EffectsOf, TopicIn, Applied, AppliedAll;
    var before, rest := SubscribeEffects(w, verify, s);
    var x, call := s.session, Subscribe(TopicIn(s.frame.topic));
    AppliedAppend(idx, x, before + [call], rest);
    AppliedSnoc(idx, x, before, call);
    IndexLeft(idx, x, before);
    IndexLeft(Applied(idx, x, call), x, rest);
  }

  lemma OtherFrameSteps(idx: T.Index, w: World, verify: Verify, s: Step)
    requires s.OnFrame? && s.frame.command != 1
    ensures Steps(idx, AppliedAll(idx, s.session, EffectsOf(w, verify, s)), s)
  {
    hide Applied, AppliedAll, T.Subscribers, Handle, Calls, RegistryAfter, Publishing;
    var es, f, x := EffectsOf(w, verify, s), s.frame, s.session;
    var later := RegistryAfter(w.registry, verify, f, s.now, s.meanwhile);
    CallsByCommand(DeskOf(w, x), w.registry, later, verify, f);
    CallsDecide(idx, x, es);
    if f.command == 2 {
      OneCall(idx, x, Unsubscribe(f.topic));
      forall y, t ensures y in T.Subscribers(AppliedAll(idx, x, es), t) <==>
                          SubscribesTo(s, y, t) || (y in T.Subscribers(idx, t) && !UnsubscribesFrom(s, y, t)) {
        AppliedSubscribers(idx, x, Unsubscribe(f.topic), y, t);
      }
    } else {
      IndexLeft(idx, x, Calls(es));
    }
  }

  /** The two effects of topic `k`. */
  predicate TopicAt(es: seq<Effect>, arr: seq<R.RespValue>, on: bool, k: nat) {
    && 1 <= k < |arr| && 2 * k <= |es|
    && es[2 * k - 2] == (if on then Subscribe(AsString(arr[k])) else Unsubscribe(AsString(arr[k])))
    && LeavesIndex(es[2 * k - 1])
  }

  ghost predicate ListedUpTo(arr: seq<R.RespValue>, m: nat, t: Bytes)
    requires m < |arr|
  {
    exists k :: 1 <= k <= m && AsString(arr[k]) == t
  }

  lemma TopicApplied(idx: T.Index, y: nat, es: seq<Effect>, arr: seq<R.RespValue>, on: bool, k: nat, x: nat, t: Bytes)
    requires TopicAt(es, arr, on, k)
    ensures x in T.Subscribers(AppliedAll(idx, y, es[..2 * k]), t) <==>
            var before := x in T.Subscribers(AppliedAll(idx, y, es[..2 * k - 2]), t);
            var named := x == y && AsString(arr[k]) == t;
            if on then named || before else before && !named
  {
    hide AsString, T.Subscribers, Applied, AppliedAll;
    var before, call, reply := es[..2 * k - 2], es[2 * k - 2], es[2 * k - 1];
    assert es[..2 * k] == before + [call] + [reply];
    AppliedSnoc(idx, y, before, call);
    AppliedSnoc(idx, y, before + [call], reply);
    AppliedSubscribers(AppliedAll(idx, y, before), y, call, x, t);
    AppliedSubscribers(AppliedAll(idx, y, before + [call]), y, reply, x, t);
  }

  lemma ListedSnoc(arr: seq<R.RespValue>, m: nat, t: Bytes)
    requires 1 <= m < |arr|
    ensures ListedUpTo(arr, m, t) <==> ListedUpTo(arr, m - 1, t) || AsString(arr[m]) == t
  {
    hide AsString;
  }

  /** The first `m` topics of a SUBSCRIBE or an UNSUBSCRIBE. */
  lemma {:induction false} TopicsApplied(idx: T.Index, y: nat, es: seq<Effect>, arr: seq<R.RespValue>, on: bool, m: nat, x: nat, t: Bytes)
    requires m < |arr| && 2 * m <= |es|
    requires forall k :: 1 <= k <= m ==> TopicAt(es, arr, on, k)
    ensures x in T.Subscribers(AppliedAll(idx, y, es[..2 * m]), t) <==>
            var listed := x == y && ListedUpTo(arr, m, t);
            if on then listed || x in T.Subscribers(idx, t) else x in T.Subscribers(idx, t) && !listed
    decreases m
  {
    hide AsString, T.Subscribers, Applied, TopicAt, ListedUpTo;
    if m == 0 {
      assert es[..0] == [];
      NothingListed(arr, t);
    } else {
      hide AppliedAll;
      TopicsApplied(idx, y, es, arr, on, m - 1, x, t);
      assert 2 * (m - 1) == 2 * m - 2;
      TopicApplied(idx, y, es, arr, on, m, x, t);
      ListedSnoc(arr, m, t);
    }
  }

  lemma NothingListed(arr: seq<R.RespValue>, t: Bytes)
    requires arr != []
    ensures !ListedUpTo(arr, 0, t)
  {
  }

  lemma TopicCommandSteps(idx: T.Index, w: World, verify: Verify, s: Step, on: bool)
    requires s.OnCommand? && Is(s.value, if on then "SUBSCRIBE" else "UNSUBSCRIBE")
    ensures Steps(idx, AppliedAll(idx, s.session, EffectsOf(w, verify, s)), s)
  {
    hide AsString, T.Subscribers, Applied, AppliedAll, HandleCommand, Ascii, Named;
    var es, v := EffectsOf(w, verify, s), s.value;
    SubscribeCommand(DeskOf(w, s.session).clientId, v, on);
    NotBoth(v);
    forall k | 1 <= k <= |v.elems| - 1 ensures TopicAt(es, v.elems, on, k) { }
    assert es[..2 * (|v.elems| - 1)] == es;
    forall x, t ensures x in T.Subscribers(AppliedAll(idx, s.session, es), t) <==>
                        SubscribesTo(s, x, t) || (x in T.Subscribers(idx, t) && !UnsubscribesFrom(s, x, t)) {
      TopicsApplied(idx, s.session, es, v.elems, on, |v.elems| - 1, x, t);
    }
  }

  lemma NotBoth(v: R.RespValue)
    ensures !(Is(v, "SUBSCRIBE") && Is(v, "UNSUBSCRIBE"))
  {
    hide AsString;
  }

  lemma OtherCommandSteps(idx: T.Index, w: World, verify: Verify, s: Step, b: Bytes)
    requires s.OnCommand? && IsCommand(b, s.value) && !Is(s.value, "SUBSCRIBE") && !Is(s.value, "UNSUBSCRIBE")
    ensures Steps(idx, AppliedAll(idx, s.session, EffectsOf(w, verify, s)), s)
  {
    hide AsString, T.Subscribers, Applied, AppliedAll, HandleCommand, Ascii, Named, IsCommand, Is, DeliversMessage, Upper;
    var es, v, client := EffectsOf(w, verify, s), s.value, DeskOf(w, s.session).clientId;
    if Is(v, "PUBLISH") {
      PublishCommand(client, b, v);
    } else if Is(v, "PING") {
      PingCommand(client, v);
    } else if Is(v, "ACK") {
      AckCommand(client, v);
    } else {
      OtherCommand(client, v);
    }
    IndexLeft(idx, s.session, es);
  }

  lemma StepSteps(idx: T.Index, w: World, verify: Verify, s: Step)
    requires Received(s)
    ensures Steps(idx, AppliedAll(idx, Actor(s), EffectsOf(w, verify, s)), s)
  {
    hide Steps, IsCommand, Is, EffectsOf, FrameReceived;
    if s.OnKeys? {
      KeysStep(idx, w, verify, s);
    } else if s.OnFrame? {
      if s.frame.command == 1 { SubscribeFrameSteps(idx, w, verify, s); } else { OtherFrameSteps(idx, w, verify, s); }
    } else {
      var b :| IsCommand(b, s.value);
      if Is(s.value, "SUBSCRIBE") {
        TopicCommandSteps(idx, w, verify, s, true);
      } else if Is(s.value, "UNSUBSCRIBE") {
        TopicCommandSteps(idx, w, verify, s, false);
      } else {
        OtherCommandSteps(idx, w, verify, s, b);
      }
    }
  }

  lemma KeysStep(idx: T.Index, w: World, verify: Verify, s: Step)
    requires s.OnKeys?
    ensures Steps(idx, AppliedAll(idx, 0, EffectsOf(w, verify, s)), s)
  {
    hide Handle, HandleCommand, T.Subscribers, Applied;
    assert EffectsOf(w, verify, s) == [];
  }

  // ----- Every run -----

  lemma SinceSnoc(steps: seq<Step>, x: nat, t: Bytes)
    requires steps != []
    ensures var n := |steps| - 1;
            (exists i :: SubscribedSince(steps, x, t, i)) <==>
            SubscribesTo(steps[n], x, t) || ((exists i :: SubscribedSince(steps[..n], x, t, i)) && !UnsubscribesFrom(steps[n], x, t))
  {
    hide SubscribesTo, UnsubscribesFrom;
    var n := |steps| - 1;
    var init := steps[..n];
    if SubscribesTo(steps[n], x, t) {
      assert SubscribedSince(steps, x, t, n);
    } else if (exists i :: SubscribedSince(init, x, t, i)) && !UnsubscribesFrom(steps[n], x, t) {
      var i :| SubscribedSince(init, x, t, i);
      assert SubscribedSince(steps, x, t, i);
    }
    if i :| SubscribedSince(steps, x, t, i) {
      if i < n { assert SubscribedSince(init, x, t, i); }
    }
  }

  /**
    * Over every run of sessions of both protocols and of registry changes, session x is
    * subscribed to t if and only if some frame or command of x subscribed it to t and none of x
    * since unsubscribed it from t.
    */
  lemma {:induction false} SubscribedIff(w: World, verify: Verify, steps: seq<Step>, x: nat, t: Bytes)
    requires AllReceived(steps)
    ensures x in T.Subscribers(IndexAfter(w, verify, steps), t) <==> exists i :: SubscribedSince(steps, x, t, i)
    decreases |steps|
  {
    hide T.Subscribers, Received, EffectsOf, RunAll, SubscribesTo, UnsubscribesFrom, AppliedAll;
    if steps == [] {
      NobodySubscribed(x, t);
    } else {
      var n := |steps| - 1;
      SubscribedIff(w, verify, steps[..n], x, t);
      StepSteps(IndexAfter(w, verify, steps[..n]), RunAll(w, verify, steps[..n]), verify, steps[n]);
      SinceSnoc(steps, x, t);
    }
  }

  lemma NobodySubscribed(x: nat, t: Bytes)
    ensures x !in T.Subscribers(map[], t)
  {
  }
}
