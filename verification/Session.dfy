/**
  * A session: the object that receives bytes and dispatches frames.
  */
module Session {
  import opened ByteStrings
  import opened Framing
  import opened ReceiveLoop
  import opened Admission
  import opened Commands
  import Resp
  import BinaryProtocol
  import K = KeyStore

  class Session {
    var protocol: Protocol
    var recvBuffer: Bytes
    var commands: seq<Resp.RespValue>
    var frames: seq<BinaryProtocol.Frame>
    var open: bool
    var errors: seq<BinaryProtocol.Frame>
    var clientId: Bytes
    var sequence: nat

    ghost function View(): Inbox
      reads this
    {
      Inbox(protocol, recvBuffer, commands, frames, open, errors)
    }

    ghost function FrontDesk(): Desk
      reads this
    {
      Desk(clientId, sequence)
    }

    constructor ()
      ensures View() == FRESH && FrontDesk() == Desk([], 0)
    {
      protocol, recvBuffer, commands, frames := UNKNOWN, [], [], [];
      open, errors := true, [];
      clientId, sequence := [], 0;
    }

    method Receive(chunk: Bytes)
      modifies this
      ensures View() == Feed(old(View()), chunk)
    {
      hide Drain, Resp.Parse, BinaryProtocol.Parse, TooLarge, Detect;
      if !open { return; }
      if chunk == [] {
        open := false;
        return;
      }
      if |recvBuffer| + |chunk| > MAX_RECV_BUFFER {
        errors := errors + [TooLarge()];
        open := false;
        return;
      }
      recvBuffer := recvBuffer + chunk;
      if protocol == UNKNOWN {
        protocol := Detect(recvBuffer);
        if protocol == UNKNOWN { return; }
      }
      if protocol == RESP {
        DrainResp();
      } else {
        DrainBinary();
      }
    }

    method DrainResp()
      requires protocol == RESP
      modifies this`recvBuffer, this`commands
      ensures View() == DrainInbox(old(View()))
    {
      hide Resp.Parse, Drain;
      Resp.IsStableParser();
      ghost var all := Drain(Resp.Parse, recvBuffer);
      while recvBuffer != []
        invariant commands + Drain(Resp.Parse, recvBuffer).frames == old(commands) + all.frames
        invariant Drain(Resp.Parse, recvBuffer).rest == all.rest
        decreases |recvBuffer|
      {
        var result := Resp.ParseBuffer(recvBuffer);
        if result.Incomplete? { break; }
        DrainStep(Resp.Parse, recvBuffer);
        recvBuffer := recvBuffer[result.used..];
        commands := commands + [result.value];
      }
      DrainDone(Resp.Parse, recvBuffer);
    }

    method DrainBinary()
      requires protocol == BINARY
      modifies this`recvBuffer, this`frames
      ensures View() == DrainInbox(old(View()))
    {
      hide BinaryProtocol.Parse, Drain;
      BinaryProtocol.IsStableParser();
      ghost var all := Drain(BinaryProtocol.Parse, recvBuffer);
      while recvBuffer != []
        invariant frames + Drain(BinaryProtocol.Parse, recvBuffer).frames == old(frames) + all.frames
        invariant Drain(BinaryProtocol.Parse, recvBuffer).rest == all.rest
        decreases |recvBuffer|
      {
        var result := BinaryProtocol.Parse(recvBuffer);
        if result.Incomplete? { break; }
        DrainStep(BinaryProtocol.Parse, recvBuffer);
        recvBuffer := recvBuffer[result.used..];
        frames := frames + [result.value];
      }
      DrainDone(BinaryProtocol.Parse, recvBuffer);
    }

    /** Dispatch of one frame; the calls and replies it makes are returned in order. */
    method HandleBinaryFrame(f: BinaryProtocol.Frame, keystore: K.TrustedKeyStore, verify: Verify, now: nat, m: Meanwhile)
        returns (effects: seq<Effect>)
      modifies this`clientId, this`sequence, keystore
      ensures keystore.View() == RegistryAfter(old(keystore.View()), verify, f, now, m)
      ensures var o := Handle(old(FrontDesk()), old(keystore.View()), keystore.View(), verify, f);
              effects == o.effects && FrontDesk() == o.desk
    {
      hide Verified, BinaryProtocol.Serialize, SignatureRequired, InvalidSignature, NotAuthorized, UnknownCommand, K.AfterFrom;
      effects := [];
      if f.command == BinaryProtocol.CMD_SUBSCRIBE {
        var topic := f.topic;
        var sep := Find(topic, 0);
        if sep < |topic| {
          clientId := topic[..sep];
          topic := topic[sep + 1..];
          effects := effects + [RegisterClient(clientId), Subscribe(topic), ReplayForClient(topic, clientId)];
        } else {
          effects := effects + [Subscribe(topic)];
        }
        effects := effects + [SendBinary(BinaryProtocol.AckFrame(f.sequence))];
      } else if f.command == BinaryProtocol.CMD_UNSUBSCRIBE {
        effects := effects + [Unsubscribe(f.topic), SendBinary(BinaryProtocol.AckFrame(f.sequence))];
      } else if f.command == BinaryProtocol.CMD_PUBLISH {
        if SECURE <= f.topic {
          effects := effects + [SendBinary(SignatureRequired(f.topic))];
        } else {
          sequence := Add64(sequence, 1);
          var data := BinaryProtocol.Write(BinaryProtocol.Message(f.topic, f.payload, sequence));
          effects := effects + [Publish(f.topic, data), SendBinary(BinaryProtocol.AckFrame(f.sequence))];
        }
      } else if f.command == BinaryProtocol.CMD_PING {
        effects := effects + [SendBinary(BinaryProtocol.PongFrame())];
      } else if f.command == BinaryProtocol.CMD_ACK {
        if clientId != [] {
          effects := effects + [HandleAck(clientId, f.sequence)];
        }
      } else if f.command == BinaryProtocol.CMD_SIGNED_PUBLISH {
        effects := HandleSignedPublish(f, keystore, verify, now, m);
      } else if f.command == BinaryProtocol.CMD_SIGNED_MESSAGE {
      } else {
        effects := effects + [SendBinary(UnknownCommand())];
      }
    }

    /** Other threads change the registry between the signature check and the scope check. */
    method HandleSignedPublish(f: BinaryProtocol.Frame, keystore: K.TrustedKeyStore, verify: Verify, now: nat, m: Meanwhile)
        returns (effects: seq<Effect>)
      requires f.command == BinaryProtocol.CMD_SIGNED_PUBLISH
      modifies this`sequence, keystore
      ensures keystore.View() == RegistryAfter(old(keystore.View()), verify, f, now, m)
      ensures var o := Handle(old(FrontDesk()), old(keystore.View()), keystore.View(), verify, f);
              effects == o.effects && FrontDesk() == o.desk
    {
      hide BinaryProtocol.Serialize, SignatureRequired, InvalidSignature, NotAuthorized, UnknownCommand, K.AfterFrom, Find;
      var message := f.topic + f.payload;
      var valid := keystore.VerifyWithKey(f.keyId, message, f.signature, now, verify, m.checking);
      if !valid {
        assert m.checking + [] == m.checking;
        return [SendBinary(InvalidSignature())];
      }
      K.AfterFromAppend(old(keystore.View()), m.checking + [K.Touch(f.keyId, now)], m.scoping);
      keystore.OthersChange(m.scoping);
      var info := keystore.GetKeyInfo(f.keyId);
      if info.Some? && info.value.allowedTopics != [] && !InScope(info.value.allowedTopics, f.topic) {
        return [SendBinary(NotAuthorized(f.topic))];
      }
      sequence := Add64(sequence, 1);
      var data := BinaryProtocol.Write(
        BinaryProtocol.SignedMessage(f.topic, f.payload, f.signature, f.keyId, sequence));
      return [Publish(f.topic, data), SendBinary(BinaryProtocol.AckFrame(f.sequence))];
    }

    /** Dispatch of one RESP command. */
    method RunCommand(v: Resp.RespValue) returns (effects: seq<Effect>)
      ensures effects == HandleCommand(clientId, v)
    {
      hide Upper, AsString, Confirmed, Confirmation, Ascii, Unsigned64, Unknown, Resp.Serialize;
      if !v.Array? { return [SendResp(Resp.Error(EXPECTED_ARRAY))]; }
      var arr := v.elems;
      if arr == [] { return [SendResp(Resp.Error(EMPTY_COMMAND))]; }
      var cmd := Uppercase(AsString(arr[0]));
      if cmd == SUBSCRIBE {
        effects := ForEachTopic(arr, true);
      } else if cmd == UNSUBSCRIBE {
        effects := ForEachTopic(arr, false);
      } else if cmd == PUBLISH {
        if |arr| != 3 { return [SendResp(Resp.Error(PUBLISH_ARITY))]; }
        var topic, payload := AsString(arr[1]), AsString(arr[2]);
        var data := Resp.Write(MessageValue(topic, payload));
        effects := [Publish(topic, data), SendResp(Resp.Integer(1))];
      } else if cmd == PING {
        if |arr| > 1 {
          effects := [SendResp(Resp.BulkString(AsString(arr[1])))];
        } else {
          effects := [SendResp(Resp.SimpleString(PONG))];
        }
      } else if cmd == ACK {
        if |arr| != 2 { return [SendResp(Resp.Error(ACK_ARITY))]; }
        var s := Unsigned64(AsInteger(arr[1]));
        effects := [];
        if clientId != [] { effects := effects + [HandleAck(clientId, s)]; }
        effects := effects + [SendResp(Resp.SimpleString(OK))];
      } else {
        effects := [SendResp(Resp.Error(Unknown(cmd)))];
      }
    }

    /** The loop over the topics of a SUBSCRIBE or an UNSUBSCRIBE. */
    method ForEachTopic(arr: seq<Resp.RespValue>, on: bool) returns (effects: seq<Effect>)
      requires arr != []
      ensures effects == Confirmed(arr, on, |arr|)
    {
      effects := [];
      for i := 1 to |arr|
        invariant effects == Confirmed(arr, on, i)
      {
        var topic := AsString(arr[i]);
        effects := effects + [if on then Subscribe(topic) else Unsubscribe(topic)];
        effects := effects + [SendResp(Confirmation(on, topic, i))];
      }
    }
  }

  /** std::transform with toupper. */
  method Uppercase(s: Bytes) returns (r: Bytes)
    ensures r == Upper(s)
  {
    r := s;
    for i := 0 to |s|
      invariant |r| == |s| && r[..i] == Upper(s[..i]) && r[i..] == s[i..]
    {
      assert s[..i + 1][..i] == s[..i];
      assert r[i] == s[i] by { assert r[i..][0] == s[i..][0]; }
      var next := r[i := ToUpper(r[i])];
      assert next[..i + 1] == r[..i] + [ToUpper(s[i])];
      assert next[i + 1..] == r[i..][1..] == s[i..][1..];
      r := next;
    }
    assert s[..|s|] == s && r[..|s|] == r;
  }
}
