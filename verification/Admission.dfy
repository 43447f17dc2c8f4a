/**
  * Dispatch of binary frames: what each command makes the session do, and which
  * publishes it lets through.
  */
module Admission {
  import opened ByteStrings
  import opened BinaryProtocol
  import Framing
  import Resp
  import K = KeyStore

  const SECURE: Bytes := [115, 101, 99, 117, 114, 101, 47]  // "secure/"
  const STAR: byte := 42
  const HASH: byte := 35

  /** Calls on the broker and answers to the client, in the order they are made. */
  datatype Effect =
    | RegisterClient(client: Bytes)
    | Subscribe(topic: Bytes)
    | ReplayForClient(topic: Bytes, client: Bytes)
    | Unsubscribe(topic: Bytes)
    | Publish(topic: Bytes, data: Bytes)
    | HandleAck(client: Bytes, seqId: nat)
    | SendBinary(frame: Frame)
    | SendResp(value: Resp.RespValue)

  function SignatureRequired(topic: Bytes): Frame {
    ErrorFrame(Ascii("Topic '") + topic + Ascii("' requires signed publish (CMD_SIGNED_PUBLISH)"))
  }

  function InvalidSignature(): Frame {
    ErrorFrame(Ascii("Invalid signature or unknown key"))
  }

  function NotAuthorized(topic: Bytes): Frame {
    ErrorFrame(Ascii("Key not authorized for topic '") + topic + Ascii("'"))
  }

  function UnknownCommand(): Frame {
    ErrorFrame(Ascii("Unknown command"))
  }

  type Verify = (Bytes, Bytes, K.PublicKey) -> bool

  /** Topic scope of a key: empty, `*` and `#` allow everything, a trailing `*` a prefix, else the one topic. */
  predicate InScope(allowed: Bytes, topic: Bytes) {
    if allowed == [] || allowed == [STAR] || allowed == [HASH] then true
    else if |allowed| >= 2 && allowed[|allowed| - 1] == STAR then allowed[..|allowed| - 1] <= topic
    else topic == allowed
  }

  /** A scope covers everything if it is empty or `#`, what starts with p if it is `p*`, and itself. */
  ghost predicate Covers(allowed: Bytes, topic: Bytes) {
    allowed == [] || allowed == [35] || allowed == topic || exists p :: allowed == p + [42] && p <= topic
  }

  lemma ScopeMeaning(allowed: Bytes, topic: Bytes)
    ensures InScope(allowed, topic) <==> Covers(allowed, topic)
  {
    if allowed != [] && allowed[|allowed| - 1] == 42 {
      var p := allowed[..|allowed| - 1];
      assert allowed == p + [42];
      forall q | allowed == q + [42] ensures q == p { }
    }
  }

  /** What the signature covers. */
  function SignedText(f: Frame): Bytes { f.topic + f.payload }

  predicate Verified(r: K.Registry, verify: Verify, f: Frame) {
    K.Active(r, f.keyId) && verify(SignedText(f), f.signature, r.keys[f.keyId].publicKey)
  }

  /**
    * The key and the signature are checked against one registry, the scope against a later one:
    * a key that has gone by then has no scope to keep to.
    */
  predicate Admitted(r: K.Registry, later: K.Registry, verify: Verify, f: Frame) {
    Verified(r, verify, f) && (f.keyId in later.keys ==> InScope(later.keys[f.keyId].allowedTopics, f.topic))
  }

  /** The part of a session that dispatch updates. */
  datatype Desk = Desk(clientId: Bytes, sequence: nat)

  datatype Outcome = Outcome(desk: Desk, effects: seq<Effect>)

  /** `r` is the registry when the signature is checked, `later` when the scope is. */
  function Handle(d: Desk, r: K.Registry, later: K.Registry, verify: Verify, f: Frame): Outcome {
    var ack := SendBinary(AckFrame(f.sequence));
    if f.command == CMD_SUBSCRIBE then
      var sep := Find(f.topic, 0);
      if sep < |f.topic| then
        var client, topic := f.topic[..sep], f.topic[sep + 1..];
        Outcome(d.(clientId := client),
                [RegisterClient(client), Subscribe(topic), ReplayForClient(topic, client), ack])
      else Outcome(d, [Subscribe(f.topic), ack])
    else if f.command == CMD_UNSUBSCRIBE then Outcome(d, [Unsubscribe(f.topic), ack])
    else if f.command == CMD_PUBLISH then
      if SECURE <= f.topic then Outcome(d, [SendBinary(SignatureRequired(f.topic))])
      else
        var n := Add64(d.sequence, 1);
        Outcome(d.(sequence := n),
                [Publish(f.topic, Serialize(BinaryProtocol.Message(f.topic, f.payload, n))), ack])
    else if f.command == CMD_PING then Outcome(d, [SendBinary(PongFrame())])
    else if f.command == CMD_ACK then Outcome(d, if d.clientId == [] then [] else [HandleAck(d.clientId, f.sequence)])
    else if f.command == CMD_SIGNED_PUBLISH then
      if !Verified(r, verify, f) then Outcome(d, [SendBinary(InvalidSignature())])
      else if !Admitted(r, later, verify, f) then Outcome(d, [SendBinary(NotAuthorized(f.topic))])
      else
        var n := Add64(d.sequence, 1);
        Outcome(d.(sequence := n),
                [Publish(f.topic, Serialize(SignedMessage(f.topic, f.payload, f.signature, f.keyId, n))), ack])
    else if f.command == CMD_SIGNED_MESSAGE then Outcome(d, [])
    else Outcome(d, [SendBinary(UnknownCommand())])
  }

  /** What other threads change while the signature is checked, and from its stamp to the scope check. */
  datatype Meanwhile = Meanwhile(checking: seq<K.Change>, scoping: seq<K.Change>)

  /** The changes from the lookup of a verified key to its scope check: a verified key is stamped. */
  function Between(f: Frame, now: nat, m: Meanwhile): seq<K.Change> {
    m.checking + [K.Touch(f.keyId, now)] + m.scoping
  }

  /** The registry once a frame is handled, which for a verified one is that of the scope check. */
  function RegistryAfter(r: K.Registry, verify: Verify, f: Frame, now: nat, m: Meanwhile): K.Registry {
    if f.command != CMD_SIGNED_PUBLISH || !K.Active(r, f.keyId) then r
    else if Verified(r, verify, f) then K.AfterFrom(r, Between(f, now, m))
    else K.AfterFrom(r, m.checking)
  }

  // ----- Subscribing -----

  /** A subscribe frame is split at its first NUL: exactly a NUL-free client id, then the topic. */
  lemma SubscribeSplits(d: Desk, r: K.Registry, later: K.Registry, verify: Verify, f: Frame, client: Bytes, topic: Bytes)
    requires f.command == CMD_SUBSCRIBE && 0 !in client && f.topic == client + [0] + topic
    ensures Handle(d, r, later, verify, f) ==
              Outcome(d.(clientId := client),
                      [RegisterClient(client), Subscribe(topic), ReplayForClient(topic, client),
                       SendBinary(AckFrame(f.sequence))])
  {
    hide Serialize, Verified, InScope, Find, SignatureRequired, InvalidSignature, NotAuthorized, UnknownCommand, AckFrame, PongFrame;
    FindAfter(client, 0, topic);
    assert f.topic[..|client|] == client && f.topic[|client| + 1..] == topic;
  }

  /** Without a NUL the subscription is anonymous and the client id stays. */
  lemma AnonymousSubscribe(d: Desk, r: K.Registry, later: K.Registry, verify: Verify, f: Frame)
    requires f.command == CMD_SUBSCRIBE && 0 !in f.topic
    ensures Handle(d, r, later, verify, f) == Outcome(d, [Subscribe(f.topic), SendBinary(AckFrame(f.sequence))])
  {
    hide Serialize, Verified, InScope, Find, SignatureRequired, InvalidSignature, NotAuthorized, UnknownCommand, AckFrame, PongFrame;
    FindSpec(f.topic, 0);
  }

  // ----- Publishing -----

  /** Something is published. */
  ghost predicate Publishing(effects: seq<Effect>) {
    exists i :: 0 <= i < |effects| && effects[i].Publish?
  }

  lemma AdmittedPublishes(d: Desk, r: K.Registry, later: K.Registry, verify: Verify, f: Frame)
    ensures Publishing(Handle(d, r, later, verify, f).effects)
            <==> (f.command == CMD_PUBLISH && !(SECURE <= f.topic))
                 || (f.command == CMD_SIGNED_PUBLISH && Admitted(r, later, verify, f))
  {
    hide Serialize, Verified, InScope, Find, SignatureRequired, InvalidSignature, NotAuthorized, UnknownCommand, AckFrame;
    var effects := Handle(d, r, later, verify, f).effects;
    if (f.command == CMD_PUBLISH && !(SECURE <= f.topic))
       || (f.command == CMD_SIGNED_PUBLISH && Admitted(r, later, verify, f)) {
      assert effects[0].Publish?;
    }
  }

  /** What it takes for a signed frame: the key, the signature over topic and payload, and the scope. */
  ghost predicate MayPublish(r: K.Registry, later: K.Registry, verify: Verify, f: Frame) {
    && f.keyId in r.keys && r.keys[f.keyId].enabled
    && verify(f.topic + f.payload, f.signature, r.keys[f.keyId].publicKey)
    && (f.keyId in later.keys ==> Covers(later.keys[f.keyId].allowedTopics, f.topic))
  }

  lemma AdmittedMeans(r: K.Registry, later: K.Registry, verify: Verify, f: Frame)
    ensures Admitted(r, later, verify, f) <==> MayPublish(r, later, verify, f)
  {
    hide InScope, Covers;
    if f.keyId in later.keys { ScopeMeaning(later.keys[f.keyId].allowedTopics, f.topic); }
  }

  /**
    * A frame is published if and only if it is an unsigned publish on a topic that does not
    * start with "secure/", or a signed one whose key is registered and enabled, whose signature
    * verifies over topic and payload, and whose key, if still registered when the scope is
    * looked up, covers the topic.
    */
  lemma PublishesIff(d: Desk, r: K.Registry, later: K.Registry, verify: Verify, f: Frame)
    ensures Publishing(Handle(d, r, later, verify, f).effects)
            <==> (f.command == 3 && !([115, 101, 99, 117, 114, 101, 47] <= f.topic))
                 || (f.command == 16 && MayPublish(r, later, verify, f))
  {
    hide Handle, Admitted, MayPublish, Publishing;
    AdmittedPublishes(d, r, later, verify, f);
    AdmittedMeans(r, later, verify, f);
  }

  /**
    * A verified frame outside the scope its key had at the signature check is published if and
    * only if, by the scope check, the key is gone or has a scope that covers the topic; and
    * that takes somebody removing or replacing the key in between.
    */
  lemma OutOfScopePublishesIff(d: Desk, r: K.Registry, verify: Verify, f: Frame, now: nat, m: Meanwhile)
    requires f.command == CMD_SIGNED_PUBLISH && Verified(r, verify, f)
    requires !InScope(r.keys[f.keyId].allowedTopics, f.topic)
    ensures var later := RegistryAfter(r, verify, f, now, m);
            var published := Publishing(Handle(d, r, later, verify, f).effects);
            && (published <==> f.keyId in later.keys ==> InScope(later.keys[f.keyId].allowedTopics, f.topic))
            && (published ==> !K.Leaves(r, Between(f, now, m), f.keyId))
  {
    hide InScope, Handle, Publishing, Between;
    AdmittedPublishes(d, r, RegistryAfter(r, verify, f, now, m), verify, f);
    if K.Leaves(r, Between(f, now, m), f.keyId) {
      K.LeftKeyKeepsScope(r, Between(f, now, m), f.keyId);
    }
  }

  /** So removing a key between the two checks lets its frame through on any topic. */
  lemma RemovedKeyEscapesScope(d: Desk, r: K.Registry, verify: Verify, f: Frame, now: nat)
    requires f.command == CMD_SIGNED_PUBLISH && Verified(r, verify, f)
    ensures var m := Meanwhile([], [K.Remove(f.keyId)]);
            Publishing(Handle(d, r, RegistryAfter(r, verify, f, now, m), verify, f).effects)
  {
    hide InScope, Handle, Publishing;
    var m := Meanwhile([], [K.Remove(f.keyId)]);
    var cs := Between(f, now, m);
    assert cs[|cs| - 1] == K.Remove(f.keyId);
    AdmittedPublishes(d, r, RegistryAfter(r, verify, f, now, m), verify, f);
  }

  // ----- Calls and replies by command -----

  function Calls(effects: seq<Effect>): seq<Effect> {
    if effects == [] then []
    else Calls(effects[..|effects| - 1])
           + if IsReply(effects[|effects| - 1]) then [] else [effects[|effects| - 1]]
  }

  function Replies(effects: seq<Effect>): seq<Effect> {
    if effects == [] then []
    else Replies(effects[..|effects| - 1])
           + if IsReply(effects[|effects| - 1]) then [effects[|effects| - 1]] else []
  }

  predicate IsReply(e: Effect) { e.SendBinary? || e.SendResp? }

  lemma {:induction false} CallsOnly(es: seq<Effect>)
    requires forall i :: 0 <= i < |es| ==> !IsReply(es[i])
    ensures Calls(es) == es && Replies(es) == []
    decreases |es|
  {
    if es != [] { CallsOnly(es[..|es| - 1]); }
  }

  /** Calls first, then at most one reply. */
  lemma SplitAtReply(es: seq<Effect>)
    requires forall i :: 0 <= i < |es| - 1 ==> !IsReply(es[i])
    ensures if es != [] && IsReply(es[|es| - 1])
            then Calls(es) == es[..|es| - 1] && Replies(es) == [es[|es| - 1]]
            else Calls(es) == es && Replies(es) == []
  {
    if es != [] && IsReply(es[|es| - 1]) {
      CallsOnly(es[..|es| - 1]);
    } else {
      CallsOnly(es);
    }
  }

  /** One frame of version 1, unsigned, without a topic. */
  predicate Answers(replies: seq<Effect>, command: byte, sequence: nat, payload: Bytes) {
    && |replies| == 1 && replies[0].SendBinary?
    && var f := replies[0].frame;
       f.version == 1 && f.command == command && f.sequence == sequence && f.topic == [] && f.payload == payload && !f.isSigned
  }

  /**
    * What each command is answered with.  SUBSCRIBE, UNSUBSCRIBE and every publish that is let
    * through: one frame of command 5 with the number of the frame.  PING: one of command 7.  ACK
    * and SIGNED_MESSAGE: nothing.  Everything else: one of command 8 that says why.
    */
  lemma RepliesByCommand(d: Desk, r: K.Registry, later: K.Registry, verify: Verify, f: Frame)
    ensures var effects := Handle(d, r, later, verify, f).effects;
            var replies := Replies(effects);
            if f.command == 1 || f.command == 2 || Publishing(effects) then Answers(replies, 5, f.sequence, [])
            else if f.command == 6 then Answers(replies, 7, 0, [])
            else if f.command == 5 || f.command == 17 then replies == []
            else Answers(replies, 8, 0,
                         if f.command == 3 then Ascii("Topic '") + f.topic + Ascii("' requires signed publish (CMD_SIGNED_PUBLISH)")
                         else if f.command != 16 then Ascii("Unknown command")
                         else WhyNot(r, verify, f))
  {
    hide Handle, Ascii, Replies, Publishing, Answers, WhyNot;
    if f.command == 16 { RepliesToSigned(d, r, later, verify, f); } else { RepliesToUnsigned(d, r, later, verify, f); }
  }

  /** The reason a signed publish that is not let through is given. */
  function WhyNot(r: K.Registry, verify: Verify, f: Frame): Bytes {
    if K.Active(r, f.keyId) && verify(f.topic + f.payload, f.signature, r.keys[f.keyId].publicKey)
    then Ascii("Key not authorized for topic '") + f.topic + Ascii("'")
    else Ascii("Invalid signature or unknown key")
  }

  lemma RepliesToSigned(d: Desk, r: K.Registry, later: K.Registry, verify: Verify, f: Frame)
    requires f.command == 16
    ensures var effects := Handle(d, r, later, verify, f).effects;
            if Publishing(effects) then Answers(Replies(effects), 5, f.sequence, [])
            else Answers(Replies(effects), 8, 0, WhyNot(r, verify, f))
  {
    hide Serialize, Ascii, InScope, Calls, Replies, Publishing;
    AdmittedPublishes(d, r, later, verify, f);
    SplitAtReply(Handle(d, r, later, verify, f).effects);
  }

  lemma RepliesToUnsigned(d: Desk, r: K.Registry, later: K.Registry, verify: Verify, f: Frame)
    requires f.command != 16
    ensures var effects := Handle(d, r, later, verify, f).effects;
            var replies := Replies(effects);
            if f.command == 1 || f.command == 2 || Publishing(effects) then Answers(replies, 5, f.sequence, [])
            else if f.command == 6 then Answers(replies, 7, 0, [])
            else if f.command == 5 || f.command == 17 then replies == []
            else Answers(replies, 8, 0,
                         if f.command == 3 then Ascii("Topic '") + f.topic + Ascii("' requires signed publish (CMD_SIGNED_PUBLISH)")
                         else Ascii("Unknown command"))
  {
    hide Serialize, Find, Ascii, Admitted, Calls, Replies, Publishing;
    AdmittedPublishes(d, r, later, verify, f);
    SplitAtReply(Handle(d, r, later, verify, f).effects);
  }

  /**
    * What each command makes the broker do: UNSUBSCRIBE one call on its topic, ACK one for the
    * session's client if it has one, a publish that is let through one publish on its topic, and
    * nothing but SUBSCRIBE anything else.
    */
  lemma CallsByCommand(d: Desk, r: K.Registry, later: K.Registry, verify: Verify, f: Frame)
    requires f.command != 1
    ensures var effects := Handle(d, r, later, verify, f).effects;
            var calls := Calls(effects);
            if f.command == 2 then calls == [Unsubscribe(f.topic)]
            else if f.command == 5 && d.clientId != [] then calls == [HandleAck(d.clientId, f.sequence)]
            else if Publishing(effects) then |calls| == 1 && calls[0].Publish? && calls[0].topic == f.topic
            else calls == []
  {
    hide Serialize, Find, Verified, InScope, Calls, Replies, Publishing, SignatureRequired, InvalidSignature, NotAuthorized,
         UnknownCommand, AckFrame, PongFrame;
    AdmittedPublishes(d, r, later, verify, f);
    SplitAtReply(Handle(d, r, later, verify, f).effects);
  }

  // ----- Replies -----

  lemma CanonicalFields(f: Frame)
    requires Canonical(f)
    ensures |f.topic| <= MAX_TOPIC_LEN && f.sequence < U64
  {
  }

  lemma RepliesAreCanonical(topic: Bytes, n: nat)
    requires |topic| <= MAX_TOPIC_LEN && n < U64
    ensures Canonical(SignatureRequired(topic)) && Canonical(NotAuthorized(topic))
    ensures Canonical(InvalidSignature()) && Canonical(UnknownCommand())
    ensures Canonical(AckFrame(n)) && Canonical(PongFrame())
  {
    hide Ascii;
  }

  /** Every answer to a parsed frame is a frame the client can parse back, error texts with the topic included. */
  lemma RepliesReadBack(d: Desk, r: K.Registry, later: K.Registry, verify: Verify, f: Frame, i: nat, rest: Bytes)
    requires Canonical(f)
    requires i < |Handle(d, r, later, verify, f).effects| && Handle(d, r, later, verify, f).effects[i].SendBinary?
    ensures var reply := Handle(d, r, later, verify, f).effects[i].frame;
            Parse(Serialize(reply) + rest) == Framing.Parsed(reply, |Serialize(reply)|)
  {
    hide Serialize, Parse, Verified, Admitted, InScope, Find, Canonical, SignatureRequired, InvalidSignature,
         NotAuthorized, UnknownCommand, AckFrame, PongFrame;
    CanonicalFields(f);
    RepliesAreCanonical(f.topic, f.sequence);
    var reply := Handle(d, r, later, verify, f).effects[i].frame;
    ParseSerialized(reply, rest);
  }
}
