/**
  * Runs of any number of sessions, binary and RESP, interleaved with changes of the key
  * registry: which publishes get through, what they carry, and whose ACKs are recorded.
  */
module SessionRuns {
  import opened ByteStrings
  import opened Framing
  import opened Admission
  import opened Commands
  import B = BinaryProtocol
  import R = Resp
  import K = KeyStore
  import ReceiveLoop

  /** A frame or a command arrives at a session, or the registry changes. */
  datatype Step =
    | OnFrame(session: nat, frame: B.Frame, now: nat, meanwhile: Meanwhile)
    | OnCommand(session: nat, value: R.RespValue)
    | OnKeys(change: K.Change)

  datatype Cause = ByFrame(frame: B.Frame) | ByCommand(value: R.RespValue)

  /** Who caused a publish, and the registries its signature and its scope were judged by. */
  datatype Origin = Origin(session: nat, cause: Cause, registry: K.Registry, later: K.Registry)

  datatype Entry = Entry(topic: Bytes, data: Bytes, origin: Origin)

  datatype World = World(desks: map<nat, Desk>, registry: K.Registry, log: seq<Entry>)

  const NEW_DESK := Desk([], 0)

  function DeskOf(w: World, s: nat): Desk {
    if s in w.desks then w.desks[s] else NEW_DESK
  }

  function Publishes(effects: seq<Effect>, o: Origin): seq<Entry> {
    if effects == [] then []
    else (if effects[0].Publish? then [Entry(effects[0].topic, effects[0].data, o)] else [])
           + Publishes(effects[1..], o)
  }

  function Advance(w: World, verify: Verify, s: Step): World {
    match s
    case OnKeys(c) => w.(registry := K.Changed(w.registry, c))
    case OnFrame(x, f, now, m) =>
      var later := RegistryAfter(w.registry, verify, f, now, m);
      var o := Handle(DeskOf(w, x), w.registry, later, verify, f);
      World(w.desks[x := o.desk], later, w.log + Publishes(o.effects, Origin(x, ByFrame(f), w.registry, later)))
    case OnCommand(x, v) =>
      var effects := HandleCommand(DeskOf(w, x).clientId, v);
      w.(log := w.log + Publishes(effects, Origin(x, ByCommand(v), w.registry, w.registry)))
  }

  function RunAll(w: World, verify: Verify, steps: seq<Step>): World {
    if steps == [] then w else Advance(RunAll(w, verify, steps[..|steps| - 1]), verify, steps[|steps| - 1])
  }

  // ----- What sessions receive -----

  predicate IsFrame(b: Bytes, f: B.Frame) { B.Parse(b).Parsed? && B.Parse(b).value == f }

  ghost predicate FrameReceived(f: B.Frame) { exists b :: IsFrame(b, f) }

  ghost predicate CommandReceived(v: R.RespValue) { exists b :: IsCommand(b, v) }

  /** Frames and commands come out of the parsers. */
  ghost predicate Received(s: Step) {
    match s
    case OnFrame(_, f, _, _) => FrameReceived(f)
    case OnCommand(_, v) => CommandReceived(v)
    case OnKeys(_) => true
  }

  ghost predicate AllReceived(steps: seq<Step>) {
    forall i :: 0 <= i < |steps| ==> Received(steps[i])
  }

  ghost predicate Handed(i: ReceiveLoop.Inbox) {
    && |i.buffer| <= ReceiveLoop.MAX_RECV_BUFFER
    && (forall k :: 0 <= k < |i.frames| ==> FrameReceived(i.frames[k]))
    && (forall k :: 0 <= k < |i.commands| ==> CommandReceived(i.commands[k]))
  }

  lemma DrainedIsReceived(b: Bytes)
    requires |b| <= ReceiveLoop.MAX_RECV_BUFFER && Progress(B.Parse) && Progress(R.Parse)
    ensures forall k :: 0 <= k < |Drain(B.Parse, b).frames| ==> FrameReceived(Drain(B.Parse, b).frames[k])
    ensures forall k :: 0 <= k < |Drain(R.Parse, b).frames| ==> CommandReceived(Drain(R.Parse, b).frames[k])
  {
    hide Drain, B.Parse, R.Parse;
    var frames, commands := Drain(B.Parse, b).frames, Drain(R.Parse, b).frames;
    forall k | 0 <= k < |frames| ensures FrameReceived(frames[k]) {
      var c := DrainedCameFrom(B.Parse, b, k);
      assert IsFrame(c, frames[k]);
    }
    forall k | 0 <= k < |commands| ensures CommandReceived(commands[k]) {
      var c := DrainedCameFrom(R.Parse, b, k);
      assert IsCommand(c, commands[k]);
    }
  }

  /** However a stream is chunked, what the receive loop hands on was parsed off a buffer within the cap. */
  lemma {:induction false} LoopHandsOnReceived(chunks: seq<Bytes>)
    ensures Handed(ReceiveLoop.Run(chunks))
    decreases |chunks|
  {
    hide Drain, B.Parse, R.Parse, FrameReceived, CommandReceived, ReceiveLoop.Detect, ReceiveLoop.TooLarge;
    if chunks != [] {
      var n := |chunks| - 1;
      LoopHandsOnReceived(chunks[..n]);
      B.IsStableParser();
      R.IsStableParser();
      var i := ReceiveLoop.Run(chunks[..n]);
      if |i.buffer| + |chunks[n]| <= ReceiveLoop.MAX_RECV_BUFFER {
        DrainedIsReceived(i.buffer + chunks[n]);
      }
    }
  }

  // ----- Sound publishes -----

  /** How many messages a session has published by frames. */
  function FramesBy(log: seq<Entry>, s: nat): (n: nat)
    ensures n <= |log|
  {
    if log == [] then 0
    else
      var o := log[|log| - 1].origin;
      FramesBy(log[..|log| - 1], s) + if o.session == s && o.cause.ByFrame? then 1 else 0
  }

  /** What is delivered: version 1, command 17 or 4, number n, and topic, payload, signature and key id of the frame. */
  function Relayed(f: B.Frame, n: nat): B.Frame {
    if f.isSigned then B.Frame(1, 17, n, f.topic, f.payload, f.signature, f.keyId, true)
    else B.Frame(1, 4, n, f.topic, f.payload, B.NO_SIGNATURE, 0, false)
  }

  /** A receiver of the published bytes reads back topic, payload, number and, for a signed frame, signature and key id. */
  ghost predicate Carries(data: Bytes, f: B.Frame, n: nat) {
    forall rest :: B.Parse(data + rest) == Parsed(Relayed(f, n), |data|)
  }

  /** The n-th publish by frame of a session was rightly admitted and delivers what its frame carried. */
  ghost predicate SoundFrame(e: Entry, f: B.Frame, n: nat, verify: Verify) {
    && e.topic == f.topic && Carries(e.data, f, n)
    && (SECURE <= e.topic ==> f.isSigned)
    && (f.isSigned ==> Admitted(e.origin.registry, e.origin.later, verify, f))
    && f.command == (if f.isSigned then B.CMD_SIGNED_PUBLISH else B.CMD_PUBLISH)
  }

  /** A publish by command is on the topic it names, whatever that is, and delivers its arguments. */
  ghost predicate SoundCommand(e: Entry, v: R.RespValue) {
    && IsPublish(v) && e.topic == AsString(v.elems[1])
    && DeliversMessage(e.data, e.topic, AsString(v.elems[2]))
  }

  ghost predicate Sound(e: Entry, n: nat, verify: Verify) {
    match e.origin.cause
    case ByFrame(f) => SoundFrame(e, f, n, verify)
    case ByCommand(v) => SoundCommand(e, v)
  }

  /** Every publish is sound, and a session numbers those it makes by frames from one. */
  ghost predicate SoundLog(w: World, verify: Verify) {
    && (forall s :: DeskOf(w, s).sequence == FramesBy(w.log, s))
    && forall i :: 0 <= i < |w.log| ==> Sound(w.log[i], FramesBy(w.log[..i + 1], w.log[i].origin.session), verify)
  }

  lemma RelayedReadsBack(f: B.Frame, n: nat)
    requires B.Canonical(f) && n < U64 && (f.isSigned || f.command == B.CMD_PUBLISH)
    ensures Carries(B.Serialize(Relayed(f, n)), f, n)
  {
    hide B.Parse, B.Serialize;
    var data := B.Serialize(Relayed(f, n));
    forall rest ensures B.Parse(data + rest) == Parsed(Relayed(f, n), |data|) {
      B.ParseSerialized(Relayed(f, n), rest);
    }
  }

  lemma {:induction false} NoPublishes(effects: seq<Effect>, o: Origin)
    requires !Publishing(effects)
    ensures Publishes(effects, o) == []
    decreases |effects|
  {
    if effects != [] {
      forall i | 0 <= i < |effects[1..]| ensures !effects[1..][i].Publish? { assert !effects[i + 1].Publish?; }
      NoPublishes(effects[1..], o);
    }
  }

  lemma OnePublish(effects: seq<Effect>, o: Origin)
    requires |effects| == 2 && effects[0].Publish? && !effects[1].Publish?
    ensures Publishes(effects, o) == [Entry(effects[0].topic, effects[0].data, o)]
  {
    assert effects[1..][1..] == [];
    assert Publishes(effects[1..], o) == [] + Publishes(effects[1..][1..], o);
  }

  /** A frame publishes at most one message; the counter moves with it. */
  lemma FramePublishesSoundly(d: Desk, verify: Verify, f: B.Frame, o: Origin)
    requires B.Canonical(f) && d.sequence + 1 < U64 && o.cause == ByFrame(f)
    ensures var out := Handle(d, o.registry, o.later, verify, f);
            var published := Publishes(out.effects, o);
            && |published| <= 1 && out.desk.sequence == d.sequence + |published|
            && (|published| == 1 ==> published[0].origin == o && SoundFrame(published[0], f, out.desk.sequence, verify))
  {
    hide B.Serialize, Carries, Verified, InScope, Find, SignatureRequired, InvalidSignature, NotAuthorized,
         UnknownCommand, B.AckFrame, B.PongFrame, Publishes;
    var out := Handle(d, o.registry, o.later, verify, f);
    AdmittedPublishes(d, o.registry, o.later, verify, f);
    if Publishing(out.effects) {
      RelayedReadsBack(f, d.sequence + 1);
      OnePublish(out.effects, o);
    } else {
      NoPublishes(out.effects, o);
    }
  }

  lemma CommandPublishesSoundly(clientId: Bytes, b: Bytes, v: R.RespValue, o: Origin)
    requires IsCommand(b, v) && o.cause == ByCommand(v)
    ensures var published := Publishes(HandleCommand(clientId, v), o);
            if IsPublish(v) then |published| == 1 && published[0].origin == o && SoundCommand(published[0], v)
            else published == []
  {
    hide R.Serialize, R.Parse, IsCommand, AsString, Upper, Confirmed, Unsigned64, Unknown, MessageValue, Publishes, Ascii;
    CommandPublishesIff(clientId, v);
    var effects := HandleCommand(clientId, v);
    if IsPublish(v) {
      NotPublish();
      PublishedReadsBack(b, v);
      OnePublish(effects, o);
    } else {
      NoPublishes(effects, o);
    }
  }

  lemma FramesBySnoc(log: seq<Entry>, e: Entry, x: nat)
    ensures FramesBy(log + [e], x) == FramesBy(log, x) + if e.origin.session == x && e.origin.cause.ByFrame? then 1 else 0
  {
    assert (log + [e])[..|log|] == log;
  }

  /** A step adds at most one entry, a sound one, and the counters follow. */
  ghost predicate Adds(w: World, w': World, added: seq<Entry>, verify: Verify) {
    && w'.log == w.log + added && |added| <= 1
    && (added != [] ==> Sound(added[0], DeskOf(w', added[0].origin.session).sequence, verify))
    && forall x :: DeskOf(w', x).sequence == FramesBy(w'.log, x)
  }

  /** A command adds an entry if and only if it is a publish, on the topic it names. */
  ghost predicate AddsFor(s: Step, added: seq<Entry>) {
    && (added != [] ==> (added[0].origin.cause.ByCommand? <==> s.OnCommand?))
    && (s.OnCommand? ==> (added != [] <==> IsPublish(s.value)))
    && (s.OnCommand? && added != [] && IsPublish(s.value) ==> added[0].topic == AsString(s.value.elems[1]))
  }

  lemma FrameStepAdds(w: World, verify: Verify, s: Step) returns (added: seq<Entry>)
    requires s.OnFrame? && FrameReceived(s.frame) && SoundLog(w, verify) && |w.log| + 1 < U64
    ensures Adds(w, Advance(w, verify, s), added, verify) && AddsFor(s, added)
  {
    hide Handle, Publishes, SoundFrame, SoundCommand, IsFrame, RegistryAfter, FramesBy, HandleCommand, K.Changed;
    var b :| IsFrame(b, s.frame);
    FrameIsCanonical(b, s.frame);
    var d, later := DeskOf(w, s.session), RegistryAfter(w.registry, verify, s.frame, s.now, s.meanwhile);
    var o := Origin(s.session, ByFrame(s.frame), w.registry, later);
    FramePublishesSoundly(d, verify, s.frame, o);
    added := Publishes(Handle(d, w.registry, later, verify, s.frame).effects, o);
    var w' := Advance(w, verify, s);
    forall x ensures DeskOf(w', x).sequence == FramesBy(w'.log, x) {
      if added == [] {
        assert w'.log == w.log;
      } else {
        assert added == [added[0]];
        FramesBySnoc(w.log, added[0], x);
      }
    }
  }

  lemma CommandStepAdds(w: World, verify: Verify, s: Step) returns (added: seq<Entry>)
    requires s.OnCommand? && CommandReceived(s.value) && SoundLog(w, verify)
    ensures Adds(w, Advance(w, verify, s), added, verify) && AddsFor(s, added)
  {
    hide HandleCommand, Publishes, SoundCommand, SoundFrame, IsCommand, FramesBy, IsPublish, AsString, Handle, RegistryAfter,
         K.Changed;
    var b :| IsCommand(b, s.value);
    var client, o := DeskOf(w, s.session).clientId, Origin(s.session, ByCommand(s.value), w.registry, w.registry);
    CommandPublishesSoundly(client, b, s.value, o);
    added := Publishes(HandleCommand(client, s.value), o);
    var w' := Advance(w, verify, s);
    assert w'.desks == w.desks && w'.log == w.log + added;
    if added == [] {
      assert w'.log == w.log;
    } else {
      assert added == [added[0]];
      CommandIsPublish(added[0], s.value);
      forall x ensures FramesBy(w'.log, x) == FramesBy(w.log, x) { FramesBySnoc(w.log, added[0], x); }
    }
  }

  /** What one step adds to the log. */
  lemma StepAdds(w: World, verify: Verify, s: Step) returns (added: seq<Entry>)
    requires Received(s) && SoundLog(w, verify) && |w.log| + 1 < U64
    ensures Adds(w, Advance(w, verify, s), added, verify) && AddsFor(s, added)
  {
    hide FrameReceived, CommandReceived, Sound, IsPublish, AsString, Handle, HandleCommand;
    if s.OnFrame? {
      added := FrameStepAdds(w, verify, s);
    } else if s.OnCommand? {
      added := CommandStepAdds(w, verify, s);
    } else {
      added := [];
      assert w.log + added == w.log;
    }
  }

  lemma CommandIsPublish(e: Entry, v: R.RespValue)
    requires SoundCommand(e, v)
    ensures IsPublish(v) && e.topic == AsString(v.elems[1])
  {
  }

  lemma FrameIsCanonical(b: Bytes, f: B.Frame)
    requires IsFrame(b, f)
    ensures B.Canonical(f)
  {
    B.ParsedIsCanonical(b);
  }

  lemma SoundSnoc(w: World, w': World, added: seq<Entry>, verify: Verify)
    requires SoundLog(w, verify) && Adds(w, w', added, verify)
    ensures SoundLog(w', verify)
  {
    hide Sound, FramesBy;
    forall i | 0 <= i < |w'.log|
      ensures Sound(w'.log[i], FramesBy(w'.log[..i + 1], w'.log[i].origin.session), verify)
    {
      if i < |w.log| {
        assert w'.log[..i + 1] == w.log[..i + 1];
      } else {
        assert w'.log[..i + 1] == w'.log;
      }
    }
  }

  /**
    * In every run of received frames and commands, of any sessions in any order, and of registry
    * changes: a message published by a frame on a secure/ topic was signed, its key was enabled,
    * its signature verified and its scope checked; a session numbers the messages it publishes by
    * frames 1, 2, 3, ...; and a receiver that parses the delivered bytes gets back what was
    * published, for a signed frame the signature and the key id included.
    */
  lemma {:induction false} PublishedMessagesAreSound(w: World, verify: Verify, steps: seq<Step>)
    requires SoundLog(w, verify) && AllReceived(steps) && |w.log| + |steps| < U64
    ensures SoundLog(RunAll(w, verify, steps), verify)
    ensures |RunAll(w, verify, steps).log| <= |w.log| + |steps|
    decreases |steps|
  {
    hide SoundLog, Advance, Received, FramesBy, Sound, AddsFor;
    if steps != [] {
      var n := |steps| - 1;
      PublishedMessagesAreSound(w, verify, steps[..n]);
      var before := RunAll(w, verify, steps[..n]);
      var added := StepAdds(before, verify, steps[n]);
      SoundSnoc(before, Advance(before, verify, steps[n]), added, verify);
    }
  }

  // ----- The secure topics -----

  /** A RESP publish on a secure/ topic. */
  predicate Bypasses(s: Step) {
    s.OnCommand? && IsPublish(s.value) && [115, 101, 99, 117, 114, 101, 47] <= AsString(s.value.elems[1])
  }

  /** Signed by an enabled key, verified, and within the scope found. */
  ghost predicate SignedAndAdmitted(e: Entry, verify: Verify) {
    && e.origin.cause.ByFrame? && e.origin.cause.frame.command == 16
    && MayPublish(e.origin.registry, e.origin.later, verify, e.origin.cause.frame)
  }

  ghost predicate SecureIsSigned(log: seq<Entry>, verify: Verify) {
    forall i :: 0 <= i < |log| && [115, 101, 99, 117, 114, 101, 47] <= log[i].topic ==> SignedAndAdmitted(log[i], verify)
  }

  ghost predicate NeverBypassed(steps: seq<Step>) {
    forall i :: 0 <= i < |steps| ==> !Bypasses(steps[i])
  }

  lemma SoundSecureEntry(e: Entry, n: nat, verify: Verify)
    requires Sound(e, n, verify) && SECURE <= e.topic
    ensures SignedAndAdmitted(e, verify) <==> e.origin.cause.ByFrame?
  {
    hide Carries, Admitted, IsPublish, MayPublish;
    if e.origin.cause.ByFrame? { AdmittedMeans(e.origin.registry, e.origin.later, verify, e.origin.cause.frame); }
  }

  /**
    * Over every run of any sessions, all messages published on secure/ topics were signed and
    * admitted if and only if no RESP command published on one.
    */
  lemma {:induction false} SecureIsSignedIff(w: World, verify: Verify, steps: seq<Step>)
    requires w.log == [] && SoundLog(w, verify) && AllReceived(steps) && |steps| < U64
    ensures SecureIsSigned(RunAll(w, verify, steps).log, verify) <==> NeverBypassed(steps)
    decreases |steps|
  {
    hide SoundLog, Advance, Received, Adds, AddsFor, SignedAndAdmitted, Bypasses;
    if steps != [] {
      var n := |steps| - 1;
      SecureIsSignedIff(w, verify, steps[..n]);
      PublishedMessagesAreSound(w, verify, steps[..n]);
      var before := RunAll(w, verify, steps[..n]);
      var added := StepAdds(before, verify, steps[n]);
      SecureSnoc(before, RunAll(w, verify, steps), added, steps[n], verify);
      NeverBypassedSnoc(steps);
    }
  }

  lemma SecureSnoc(w: World, w': World, added: seq<Entry>, s: Step, verify: Verify)
    requires Adds(w, w', added, verify) && AddsFor(s, added)
    ensures SecureIsSigned(w'.log, verify) <==> SecureIsSigned(w.log, verify) && !Bypasses(s)
  {
    hide Sound, SignedAndAdmitted, IsPublish, AsString, FramesBy;
    assert forall i :: 0 <= i < |w.log| ==> w'.log[i] == w.log[i];
    if added != [] {
      assert w'.log[|w.log|] == added[0];
      if SECURE <= added[0].topic {
        SoundSecureEntry(added[0], DeskOf(w', added[0].origin.session).sequence, verify);
      }
    }
  }

  lemma NeverBypassedSnoc(steps: seq<Step>)
    requires steps != []
    ensures NeverBypassed(steps) <==> NeverBypassed(steps[..|steps| - 1]) && !Bypasses(steps[|steps| - 1])
  {
    hide Bypasses;
    assert steps == steps[..|steps| - 1] + [steps[|steps| - 1]];
  }

  /** One received command is enough: PUBLISH on a secure/ topic puts an unsigned message there. */
  lemma RespBypassesSignatures(verify: Verify, x: nat) returns (v: R.RespValue)
    ensures AllReceived([OnCommand(x, v)]) && Bypasses(OnCommand(x, v))
    ensures !SecureIsSigned(RunAll(World(map[], K.EMPTY, []), verify, [OnCommand(x, v)]).log, verify)
  {
    hide IsCommand, IsPublish, AsString, SecureIsSigned, RunAll, Sound;
    var b;
    b, v := PublishArrives(SECURE, []);
    var steps := [OnCommand(x, v)];
    assert CommandReceived(v);
    assert Bypasses(steps[0]);
    SecureIsSignedIff(World(map[], K.EMPTY, []), verify, steps);
  }

  // ----- Receivers -----

  /** The receiver's own check on what it parsed is the broker's check. */
  lemma ReceiverAgrees(e: Entry, n: nat, verify: Verify, pk: K.PublicKey)
    requires Sound(e, n, verify) && e.origin.cause.ByFrame? && e.origin.cause.frame.isSigned
    requires pk == e.origin.registry.keys[e.origin.cause.frame.keyId].publicKey
    ensures B.Parse(e.data).Parsed?
    ensures var received := B.Parse(e.data).value;
            && received.keyId == e.origin.cause.frame.keyId && received.topic == e.topic && received.sequence == n
            && verify(received.topic + received.payload, received.signature, pk)
  {
    hide B.Parse, InScope;
    assert B.Parse(e.data + []) == Parsed(Relayed(e.origin.cause.frame, n), |e.data|);
    assert e.data + [] == e.data;
  }

  /** Delivered bytes are read by the protocol of the publisher and by no other. */
  lemma ReadableByOwnProtocolIff(e: Entry, n: nat, verify: Verify)
    requires Sound(e, n, verify)
    ensures B.Parse(e.data).Parsed? <==> e.origin.cause.ByFrame?
    ensures R.Parse(e.data).Parsed? <==> e.origin.cause.ByCommand?
  {
    assert e.data + [] == e.data;
    FirstBytes(e.data);
    if e.origin.cause.ByFrame? {
      assert B.Parse(e.data + []).Parsed?;
    } else {
      assert R.Parse(e.data + []).Parsed?;
    }
  }

  lemma FirstBytes(b: Bytes)
    ensures B.Parse(b).Parsed? ==> b[0] == B.VERSION
    ensures R.Parse(b).Parsed? ==> b != [] && b[0] != B.VERSION
  {
  }

  // ----- ACKs -----

  /** The client id a run leaves a session with: that of its last subscribe frame that carried one. */
  function LastClient(x: nat, client: Bytes, steps: seq<Step>): Bytes {
    if steps == [] then client
    else
      var s := steps[|steps| - 1];
      if s.OnFrame? && s.session == x && s.frame.command == B.CMD_SUBSCRIBE && Find(s.frame.topic, 0) < |s.frame.topic|
      then s.frame.topic[..Find(s.frame.topic, 0)]
      else LastClient(x, client, steps[..|steps| - 1])
  }

  lemma {:induction false} ClientIsLast(w: World, verify: Verify, steps: seq<Step>, x: nat)
    ensures DeskOf(RunAll(w, verify, steps), x).clientId == LastClient(x, DeskOf(w, x).clientId, steps)
    decreases |steps|
  {
    hide Find, B.Serialize, Verified, Admitted, RegistryAfter, Publishes, HandleCommand, SignatureRequired, InvalidSignature,
         NotAuthorized, UnknownCommand, B.AckFrame, B.PongFrame;
    if steps != [] {
      ClientIsLast(w, verify, steps[..|steps| - 1], x);
    }
  }

  /**
    * ACK frames and ACK commands of a session are recorded for the client its last subscribe
    * frame named, and for nobody before that; so never in a session that speaks RESP only.
    */
  lemma AcksGoToLastClient(w: World, verify: Verify, steps: seq<Step>, x: nat, f: B.Frame, v: R.RespValue)
    requires f.command == B.CMD_ACK && IsAck(v)
    ensures var after := RunAll(w, verify, steps);
            var client := LastClient(x, DeskOf(w, x).clientId, steps);
            && Handle(DeskOf(after, x), after.registry, after.registry, verify, f).effects
               == (if client == [] then [] else [HandleAck(client, f.sequence)])
            && HandleCommand(DeskOf(after, x).clientId, v)
               == (if client == [] then [] else [HandleAck(client, Unsigned64(AsInteger(v.elems[1])))])
                  + [SendResp(R.SimpleString(OK))]
  {
    hide LastClient, RunAll, HandleCommand, Unsigned64, IsAck, B.Serialize, Verified, Admitted, Find, SignatureRequired,
         InvalidSignature, NotAuthorized, UnknownCommand, B.AckFrame, B.PongFrame;
    ClientIsLast(w, verify, steps, x);
    AckRecords(DeskOf(RunAll(w, verify, steps), x).clientId, v);
  }

  /** A session that gets no frames, only commands, has no client. */
  lemma {:induction false} RespSessionsHaveNoClient(steps: seq<Step>, x: nat)
    requires forall i :: 0 <= i < |steps| && steps[i].OnFrame? ==> steps[i].session != x
    ensures LastClient(x, NEW_DESK.clientId, steps) == []
    decreases |steps|
  {
    if steps != [] { RespSessionsHaveNoClient(steps[..|steps| - 1], x); }
  }
}
