/**
  * Dispatch of RESP commands: what each makes the session do, and what it answers.
  */
module Commands {
  import opened ByteStrings
  import opened Framing
  import opened Decimal
  import opened Resp
  import opened Admission
  import ReceiveLoop

  const SUBSCRIBE: Bytes := Ascii("SUBSCRIBE")
  const UNSUBSCRIBE: Bytes := Ascii("UNSUBSCRIBE")
  const PUBLISH: Bytes := Ascii("PUBLISH")
  const PING: Bytes := Ascii("PING")
  const ACK: Bytes := Ascii("ACK")

  const EXPECTED_ARRAY: Bytes := Ascii("ERR Protocol error: expected array")
  const EMPTY_COMMAND: Bytes := Ascii("ERR empty command")
  const PUBLISH_ARITY: Bytes := Ascii("ERR wrong number of arguments for PUBLISH")
  const ACK_ARITY: Bytes := Ascii("ERR wrong number of arguments for ACK")
  const PONG: Bytes := Ascii("PONG")
  const OK: Bytes := Ascii("OK")

  function Unknown(name: Bytes): Bytes {
    Ascii("ERR unknown command '") + name + Ascii("'")
  }

  /** The text of a value that has one. */
  function AsString(v: RespValue): Bytes {
    match v
    case SimpleString(s) => s
    case Error(s) => s
    case BulkString(s) => s
    case _ => []
  }

  function AsInteger(v: RespValue): int {
    if v.Integer? then v.num else 0
  }

  /** Conversion to an unsigned 64-bit number. */
  function Unsigned64(n: int): nat { n % U64 }

  /** toupper in the C locale. */
  function ToUpper(c: byte): byte { if 97 <= c <= 122 then c - 32 else c }

  function Upper(s: Bytes): (r: Bytes)
    ensures |r| == |s|
  {
    if s == [] then [] else Upper(s[..|s| - 1]) + [ToUpper(s[|s| - 1])]
  }

  /** The confirmation of one topic of a SUBSCRIBE or an UNSUBSCRIBE. */
  function Confirmation(on: bool, topic: Bytes, i: nat): RespValue {
    Array([BulkString(Ascii(if on then "subscribe" else "unsubscribe")), BulkString(topic), Integer(if on then i else 0)])
  }

  /** The first `n` elements of a SUBSCRIBE or an UNSUBSCRIBE: a call and a confirmation per topic. */
  function Confirmed(arr: seq<RespValue>, on: bool, n: nat): seq<Effect>
    requires n <= |arr|
  {
    if n <= 1 then []
    else
      var topic := AsString(arr[n - 1]);
      Confirmed(arr, on, n - 1) +
      [if on then Subscribe(topic) else Unsubscribe(topic), SendResp(Confirmation(on, topic, n - 1))]
  }

  /** What a subscriber is sent for a RESP publish. */
  function MessageValue(topic: Bytes, payload: Bytes): RespValue {
    Array([BulkString(Ascii("message")), BulkString(topic), BulkString(payload)])
  }

  function HandleCommand(clientId: Bytes, v: RespValue): seq<Effect> {
    if !v.Array? then [SendResp(Error(EXPECTED_ARRAY))]
    else if v.elems == [] then [SendResp(Error(EMPTY_COMMAND))]
    else
      var arr := v.elems;
      var cmd := Upper(AsString(arr[0]));
      if cmd == SUBSCRIBE then Confirmed(arr, true, |arr|)
      else if cmd == UNSUBSCRIBE then Confirmed(arr, false, |arr|)
      else if cmd == PUBLISH then
        if |arr| != 3 then [SendResp(Error(PUBLISH_ARITY))]
        else
          var topic, payload := AsString(arr[1]), AsString(arr[2]);
          [Publish(topic, Serialize(MessageValue(topic, payload))), SendResp(Integer(1))]
      else if cmd == PING then
        [SendResp(if |arr| > 1 then BulkString(AsString(arr[1])) else SimpleString(PONG))]
      else if cmd == ACK then
        if |arr| != 2 then [SendResp(Error(ACK_ARITY))]
        else (if clientId == [] then [] else [HandleAck(clientId, Unsigned64(AsInteger(arr[1])))])
               + [SendResp(SimpleString(OK))]
      else [SendResp(Error(Unknown(cmd)))]
  }

  /** Small letters become capitals, every other byte stays. */
  lemma {:induction false} UpperSpec(s: Bytes, i: nat)
    requires i < |s|
    ensures Upper(s)[i] == if 97 <= s[i] <= 122 then s[i] - 32 else s[i]
    decreases |s|
  {
    if i < |s| - 1 { UpperSpec(s[..|s| - 1], i); }
  }

  /** Topic k of a SUBSCRIBE is the k-th call and is confirmed with its position, of an UNSUBSCRIBE with 0. */
  lemma {:induction false} ConfirmedSpec(arr: seq<RespValue>, on: bool, n: nat)
    requires 1 <= n <= |arr|
    ensures var es := Confirmed(arr, on, n);
            && |es| == 2 * (n - 1)
            && forall k :: 1 <= k < n ==>
                 var topic := AsString(arr[k]);
                 && es[2 * k - 2] == (if on then Subscribe(topic) else Unsubscribe(topic))
                 && es[2 * k - 1] == SendResp(Confirmation(on, topic, k))
  {
    hide AsString, Confirmation;
    if n > 1 { ConfirmedSpec(arr, on, n - 1); }
  }

  /** The effects of a SUBSCRIBE or an UNSUBSCRIBE, one by one. */
  lemma ConfirmedAt(arr: seq<RespValue>, on: bool, i: nat)
    requires arr != [] && i < |Confirmed(arr, on, |arr|)|
    ensures var k := i / 2 + 1;
            && k < |arr|
            && Confirmed(arr, on, |arr|)[i] ==
                 if i % 2 == 1 then SendResp(Confirmation(on, AsString(arr[k]), k))
                 else if on then Subscribe(AsString(arr[k])) else Unsubscribe(AsString(arr[k]))
  {
    hide AsString, Confirmation, Confirmed;
    ConfirmedSpec(arr, on, |arr|);
    var k := i / 2 + 1;
    assert i == 2 * k - 2 || i == 2 * k - 1;
  }

  // ----- Publishing -----

  /** A PUBLISH with a topic and a payload. */
  predicate IsPublish(v: RespValue) {
    v.Array? && |v.elems| == 3 && Upper(AsString(v.elems[0])) == PUBLISH
  }

  lemma NotPublish()
    ensures PUBLISH != SUBSCRIBE && PUBLISH != UNSUBSCRIBE
  {
  }

  /** A RESP command is published if and only if it is a PUBLISH with two arguments: no topic is refused. */
  lemma CommandPublishesIff(clientId: Bytes, v: RespValue)
    ensures Publishing(HandleCommand(clientId, v)) <==> IsPublish(v)
  {
    hide AsString, Serialize, MessageValue, Upper, Confirmed, Unsigned64, Ascii;
    NotPublish();
    var es := HandleCommand(clientId, v);
    if IsPublish(v) {
      assert es[0].Publish?;
    } else if Publishing(es) {
      var i :| 0 <= i < |es| && es[i].Publish?;
      if es == Confirmed(v.elems, true, |v.elems|) {
        ConfirmedAt(v.elems, true, i);
      } else {
        ConfirmedAt(v.elems, false, i);
      }
      assert false;
    }
  }

  // ----- Acknowledging -----

  /** An ACK with one argument. */
  predicate IsAck(v: RespValue) {
    v.Array? && |v.elems| == 2 && Upper(AsString(v.elems[0])) == ACK
  }

  /** An ACK is recorded for the client, if the session has one, and answered either way. */
  lemma AckRecords(clientId: Bytes, v: RespValue)
    requires IsAck(v)
    ensures HandleCommand(clientId, v) ==
              (if clientId == [] then [] else [HandleAck(clientId, Unsigned64(AsInteger(v.elems[1])))])
                + [SendResp(SimpleString(OK))]
  {
    hide AsString, Upper, Serialize, MessageValue, Confirmed, Unsigned64, Unknown, Ascii;
  }

  // ----- What clients read back -----

  /** A command as a session gets it: parsed off a buffer no larger than the cap. */
  predicate IsCommand(b: Bytes, v: RespValue) {
    |b| <= ReceiveLoop.MAX_RECV_BUFFER && Parse(b).Parsed? && Parse(b).value == v
  }

  ghost predicate ReadsBack(v: RespValue) {
    forall rest :: Parse(Serialize(v) + rest) == Parsed(v, |Serialize(v)|)
  }

  lemma ReadsBackIff(v: RespValue)
    ensures ReadsBack(v) <==> WithinLimits(v)
  {
    hide Parse, Serialize, WithinLimits;
    forall rest ensures Parse(Serialize(v) + rest) == Parsed(v, |Serialize(v)|) <==> WithinLimits(v) {
      RoundTrip(v, rest);
    }
    assert ReadsBack(v) ==> Parse(Serialize(v) + []) == Parsed(v, |Serialize(v)|);
  }

  lemma HeaderTextFits(b: Bytes)
    requires Parse(b).Parsed?
    ensures |AsString(Parse(b).value)| <= |b|
  {
    hide Stoll;
  }

  lemma {:induction false} ElementTextsFit(b: Bytes, count: nat, i: nat)
    requires ParseElems(b, count).Parsed? && i < count
    ensures |AsString(ParseElems(b, count).value[i])| <= |b|
    decreases count
  {
    hide Parse, AsString;
    if i == 0 {
      HeaderTextFits(b);
    } else {
      ElementTextsFit(b[Parse(b).used..], count - 1, i - 1);
    }
  }

  /** The texts of a command are short enough for bulk strings. */
  lemma CommandTextsFit(b: Bytes, v: RespValue)
    requires IsCommand(b, v) && v.Array?
    ensures |v.elems| <= MAX_ARRAY_COUNT
    ensures forall i :: 0 <= i < |v.elems| ==> |AsString(v.elems[i])| <= MAX_BULK_LEN
  {
    hide ParseElems, AsString, Stoll;
    ParsedWithinLimits(b);
    var h := ReadHeader(b);
    if h.Elements? {
      forall i | 0 <= i < |v.elems| ensures |AsString(v.elems[i])| <= MAX_BULK_LEN {
        ElementTextsFit(b[h.used..], h.count, i);
      }
    }
  }

  /** A published RESP message reads back as [message, topic, payload], for every command a session can receive. */
  lemma PublishedReadsBack(b: Bytes, v: RespValue)
    requires IsCommand(b, v) && IsPublish(v)
    ensures DeliversMessage(Serialize(MessageValue(AsString(v.elems[1]), AsString(v.elems[2]))),
                            AsString(v.elems[1]), AsString(v.elems[2]))
  {
    hide IsCommand, AsString, Upper, Ascii;
    CommandTextsFit(b, v);
    AsciiWord("message", [109, 101, 115, 115, 97, 103, 101]);
    MessageReadsBack(AsString(v.elems[1]), AsString(v.elems[2]));
  }

  lemma MessageReadsBack(topic: Bytes, payload: Bytes)
    requires |topic| <= MAX_BULK_LEN && |payload| <= MAX_BULK_LEN
    ensures ReadsBack(MessageValue(topic, payload))
  {
    hide Ascii, ReadsBack;
    ReadsBackIff(MessageValue(topic, payload));
  }

  /** A command no branch knows. */
  predicate IsUnknown(v: RespValue) {
    && v.Array? && v.elems != []
    && Upper(AsString(v.elems[0])) !in {SUBSCRIBE, UNSUBSCRIBE, PUBLISH, PING, ACK}
  }

  lemma ConfirmationFits(on: bool, topic: Bytes, i: nat)
    requires |topic| <= MAX_BULK_LEN && i <= MAX_ARRAY_COUNT
    ensures WithinLimits(Confirmation(on, topic, i))
  {
    hide Ascii;
  }

  /** The fixed texts are one line each. */
  lemma FixedTextsAreLines()
    ensures !HasCrlf(EXPECTED_ARRAY) && !HasCrlf(EMPTY_COMMAND) && !HasCrlf(PUBLISH_ARITY) && !HasCrlf(ACK_ARITY)
    ensures !HasCrlf(PONG) && !HasCrlf(OK)
  {
    hide Ascii;
  }

  /** Upper-casing moves no line break. */
  lemma UpperKeepsCrlf(s: Bytes)
    ensures HasCrlf(Upper(s)) <==> HasCrlf(s)
  {
    hide Upper;
    forall i | 0 <= i < |s| ensures Upper(s)[i] == if 97 <= s[i] <= 122 then s[i] - 32 else s[i] { UpperSpec(s, i); }
    forall i ensures IsCrlfAt(Upper(s), i) <==> IsCrlfAt(s, i) { }
  }

  lemma QuotedKeepsCrlf(before: Bytes, name: Bytes, after: Bytes)
    requires CR !in before && CR !in after && (after == [] || after[0] != LF)
    ensures HasCrlf(before + name + after) <==> HasCrlf(name)
  {
    var whole := before + name + after;
    forall i ensures IsCrlfAt(whole, i) <==> IsCrlfAt(name, i - |before|) {
      if 0 <= i < |whole| && whole[i] == CR { assert |before| <= i < |before| + |name|; }
    }
    if HasCrlf(name) {
      var i :| IsCrlfAt(name, i);
      assert IsCrlfAt(whole, i + |before|);
    }
  }

  lemma UnknownKeepsCrlf(name: Bytes)
    ensures HasCrlf(Unknown(Upper(name))) <==> HasCrlf(name)
  {
    hide Upper, Ascii;
    QuotedKeepsCrlf(Ascii("ERR unknown command '"), Upper(name), Ascii("'"));
    UpperKeepsCrlf(name);
  }

  /** Every answer can be read back by the client. */
  ghost predicate AnswersReadBack(es: seq<Effect>) {
    forall i :: 0 <= i < |es| && es[i].SendResp? ==> ReadsBack(es[i].value)
  }

  lemma ConfirmedReadsBack(b: Bytes, v: RespValue, on: bool)
    requires IsCommand(b, v) && v.Array? && v.elems != []
    ensures AnswersReadBack(Confirmed(v.elems, on, |v.elems|))
  {
    hide IsCommand, AsString, Confirmed, Confirmation, ReadsBack, WithinLimits;
    CommandTextsFit(b, v);
    var es := Confirmed(v.elems, on, |v.elems|);
    forall i | 0 <= i < |es| && es[i].SendResp? ensures ReadsBack(es[i].value) {
      ConfirmedAt(v.elems, on, i);
      ConfirmationFits(on, AsString(v.elems[i / 2 + 1]), i / 2 + 1);
      ReadsBackIff(es[i].value);
    }
  }

  /**
    * Every answer to a command a session can receive reads back as it was meant, except to an
    * unknown command whose name has a line break in it: the error line then ends early.
    */
  lemma AnswersReadBackIff(clientId: Bytes, b: Bytes, v: RespValue)
    requires IsCommand(b, v)
    ensures AnswersReadBack(HandleCommand(clientId, v)) <==> !(IsUnknown(v) && HasCrlf(AsString(v.elems[0])))
  {
    hide IsCommand, AsString, Upper, Confirmed, ReadsBack, Serialize, MessageValue, Unsigned64, Unknown, Ascii, HasCrlf;
    var es := HandleCommand(clientId, v);
    FixedTextsAreLines();
    forall i | 0 <= i < |es| && es[i].SendResp? ensures ReadsBack(es[i].value) <==> WithinLimits(es[i].value) {
      ReadsBackIff(es[i].value);
    }
    if v.Array? && v.elems != [] {
      CommandTextsFit(b, v);
      var cmd := Upper(AsString(v.elems[0]));
      if cmd == SUBSCRIBE {
        ConfirmedReadsBack(b, v, true);
      } else if cmd == UNSUBSCRIBE {
        ConfirmedReadsBack(b, v, false);
      } else if IsUnknown(v) {
        UnknownKeepsCrlf(AsString(v.elems[0]));
        assert es[0] == SendResp(Error(Unknown(cmd)));
      }
    }
  }

  // ----- Commands that do arrive -----

  lemma SerializedIsCommand(v: RespValue)
    requires WithinLimits(v) && |Serialize(v)| <= ReceiveLoop.MAX_RECV_BUFFER
    ensures IsCommand(Serialize(v), v)
  {
    hide Parse, Serialize, WithinLimits;
    ParseSerialized(v, []);
    assert Serialize(v) + [] == Serialize(v);
  }

  lemma ShortBulk(s: Bytes)
    requires |s| < 10
    ensures WithinLimits(BulkString(s)) && |Serialize(BulkString(s))| == |s| + 6
  {
  }

  lemma {:induction false} ShortBulks(vs: seq<RespValue>)
    requires forall i :: 0 <= i < |vs| ==> vs[i].BulkString? && |vs[i].data| < 10
    ensures |SerializeAll(vs)| <= 15 * |vs| && forall i :: 0 <= i < |vs| ==> WithinLimits(vs[i])
  {
    hide WithinLimits;
    if vs != [] {
      ShortBulk(vs[0].data);
      ShortBulks(vs[1..]);
    }
  }

  /** Every short array of short bulk strings is received from its own encoding. */
  lemma ShortArrayArrives(vs: seq<RespValue>)
    requires |vs| < 10 && forall i :: 0 <= i < |vs| ==> vs[i].BulkString? && |vs[i].data| < 10
    ensures IsCommand(Serialize(Array(vs)), Array(vs))
  {
    hide IsCommand, SerializeAll;
    ShortBulks(vs);
    SerializedIsCommand(Array(vs));
  }

  /** A command named by a line break arrives, is unknown, and its answer does not read back. */
  lemma BrokenName(clientId: Bytes) returns (b: Bytes, v: RespValue)
    ensures IsCommand(b, v) && !AnswersReadBack(HandleCommand(clientId, v))
  {
    hide IsCommand, HandleCommand, Serialize, AnswersReadBack, Ascii;
    v := Array([BulkString(CRLF)]);
    b := Serialize(v);
    ShortArrayArrives(v.elems);
    assert IsCrlfAt(CRLF, 0);
    AnswersReadBackIff(clientId, b, v);
  }

  /** A name in capitals is its own upper case. */
  lemma CapitalsStay(text: string)
    requires forall i :: 0 <= i < |text| ==> 'A' <= text[i] <= 'Z'
    ensures Upper(Ascii(text)) == Ascii(text)
  {
    hide Upper, Ascii;
    forall i | 0 <= i < |text| ensures Upper(Ascii(text))[i] == Ascii(text)[i] {
      AsciiAt(text, i);
      UpperSpec(Ascii(text), i);
    }
  }

  /** PUBLISH on a short topic arrives, and is published. */
  lemma PublishArrives(topic: Bytes, payload: Bytes) returns (b: Bytes, v: RespValue)
    requires |topic| < 10 && |payload| < 10
    ensures IsCommand(b, v) && IsPublish(v) && AsString(v.elems[1]) == topic && AsString(v.elems[2]) == payload
  {
    hide IsCommand, Serialize, Upper, Ascii;
    v := Array([BulkString(PUBLISH), BulkString(topic), BulkString(payload)]);
    b := Serialize(v);
    ShortArrayArrives(v.elems);
    CapitalsStay("PUBLISH");
  }

  // ----- Commands by name -----

  predicate Capitals(text: string) { forall i :: 0 <= i < |text| ==> 'A' <= text[i] <= 'Z' }

  /** The name, in capitals or small letters. */
  ghost predicate Named(name: Bytes, text: string) {
    |name| == |text| && forall i :: 0 <= i < |text| ==> name[i] == text[i] as int || name[i] == text[i] as int + 32
  }

  lemma NamedIff(name: Bytes, text: string)
    requires Capitals(text)
    ensures Upper(name) == Ascii(text) <==> Named(name, text)
  {
    hide Upper, Ascii;
    forall i | 0 <= i < |text| ensures Ascii(text)[i] == text[i] as int { AsciiAt(text, i); }
    forall i | 0 <= i < |name| ensures Upper(name)[i] == if 97 <= name[i] <= 122 then name[i] - 32 else name[i] {
      UpperSpec(name, i);
    }
    if Upper(name) == Ascii(text) {
      forall i | 0 <= i < |text| ensures name[i] == text[i] as int || name[i] == text[i] as int + 32 {
        assert Upper(name)[i] == Ascii(text)[i];
      }
    }
  }

  /** Which command a value is: an array whose first element is a text with that name. */
  ghost predicate Is(v: RespValue, text: string) {
    v.Array? && v.elems != [] && Named(AsString(v.elems[0]), text)
  }

  lemma IsIff(v: RespValue, text: string)
    requires Capitals(text)
    ensures Is(v, text) <==> v.Array? && v.elems != [] && Upper(AsString(v.elems[0])) == Ascii(text)
  {
    hide Upper, Ascii, Named, AsString;
    if v.Array? && v.elems != [] { NamedIff(AsString(v.elems[0]), text); }
  }

  /** The text of a value: of a simple string, an error and a bulk string what they hold, of anything else nothing. */
  lemma TextOf(s: Bytes, n: int, vs: seq<RespValue>)
    ensures AsString(SimpleString(s)) == AsString(Error(s)) == AsString(BulkString(s)) == s
    ensures AsString(Integer(n)) == AsString(Array(vs)) == AsString(Null) == []
  {
  }

  /** SUBSCRIBE and UNSUBSCRIBE: for each topic in turn the call and its confirmation. */
  lemma SubscribeCommand(clientId: Bytes, v: RespValue, on: bool)
    requires Is(v, if on then "SUBSCRIBE" else "UNSUBSCRIBE")
    ensures var es := HandleCommand(clientId, v);
            && |es| == 2 * |v.elems| - 2
            && forall k :: 1 <= k < |v.elems| ==>
                 var topic := AsString(v.elems[k]);
                 && es[2 * k - 2] == (if on then Subscribe(topic) else Unsubscribe(topic))
                 && es[2 * k - 1] == SendResp(Array([BulkString(Ascii(if on then "subscribe" else "unsubscribe")),
                                                     BulkString(topic), Integer(if on then k else 0)]))
  {
    hide Upper, Ascii, AsString, Confirmed, Named, Serialize, Unknown, Unsigned64;
    IsIff(v, if on then "SUBSCRIBE" else "UNSUBSCRIBE");
    ConfirmedSpec(v.elems, on, |v.elems|);
  }

  /** PUBLISH: with two arguments one message on the first and the answer 1, otherwise an error. */
  lemma PublishCommand(clientId: Bytes, b: Bytes, v: RespValue)
    requires IsCommand(b, v) && Is(v, "PUBLISH")
    ensures var es := HandleCommand(clientId, v);
            if |v.elems| != 3 then es == [SendResp(Error(Ascii("ERR wrong number of arguments for PUBLISH")))]
            else && |es| == 2 && es[0].Publish? && es[0].topic == AsString(v.elems[1]) && es[1] == SendResp(Integer(1))
                 && DeliversMessage(es[0].data, AsString(v.elems[1]), AsString(v.elems[2]))
  {
    hide Upper, Ascii, AsString, Confirmed, Named, Serialize, Unknown, Unsigned64, IsCommand, Parse;
    IsIff(v, "PUBLISH");
    if |v.elems| == 3 { PublishedReadsBack(b, v); }
  }

  /** Whatever follows, the bytes parse to an array of three bulk strings: the word message, the topic and the payload. */
  ghost predicate DeliversMessage(data: Bytes, topic: Bytes, payload: Bytes) {
    forall rest :: Parse(data + rest) ==
      Parsed(Array([BulkString([109, 101, 115, 115, 97, 103, 101]), BulkString(topic), BulkString(payload)]), |data|)
  }

  /** PING: its first argument as a bulk string, or PONG. */
  lemma PingCommand(clientId: Bytes, v: RespValue)
    requires Is(v, "PING")
    ensures HandleCommand(clientId, v) ==
            [SendResp(if |v.elems| > 1 then BulkString(AsString(v.elems[1])) else SimpleString([80, 79, 78, 71]))]
  {
    hide Upper, Ascii, AsString, Confirmed, Named, Serialize, Unknown, Unsigned64;
    IsIff(v, "PING");
    assert Ascii("PONG") == [80, 79, 78, 71] by { AsciiWord("PONG", [80, 79, 78, 71]); }
  }

  lemma AsciiWord(text: string, codes: Bytes)
    requires |text| == |codes| && forall i :: 0 <= i < |text| ==> ' ' <= text[i] <= '~' && text[i] as int == codes[i]
    ensures Ascii(text) == codes
  {
    hide Ascii;
    forall i | 0 <= i < |text| ensures Ascii(text)[i] == codes[i] { AsciiAt(text, i); }
  }

  /**
    * ACK: with one argument the number is recorded for the client, if the session has one, and
    * the answer is OK; a negative number counts from 2^64 down, anything but an integer is 0.
    */
  lemma AckCommand(clientId: Bytes, v: RespValue)
    requires Is(v, "ACK")
    ensures var es := HandleCommand(clientId, v);
            if |v.elems| != 2 then es == [SendResp(Error(Ascii("ERR wrong number of arguments for ACK")))]
            else
              && (clientId == [] ==> es == [SendResp(SimpleString([79, 75]))])
              && (clientId != [] ==> && |es| == 2 && es[0].HandleAck? && es[0].client == clientId
                                     && es[1] == SendResp(SimpleString([79, 75])))
              && (clientId != [] && v.elems[1].Integer? && 0 <= v.elems[1].num < U64 ==> es[0].seqId == v.elems[1].num)
              && (clientId != [] && v.elems[1].Integer? && -U64 <= v.elems[1].num < 0 ==> es[0].seqId == v.elems[1].num + U64)
              && (clientId != [] && !v.elems[1].Integer? ==> es[0].seqId == 0)
  {
    hide Upper, Ascii, AsString, Confirmed, Named, Serialize, Unknown, Unsigned64;
    IsIff(v, "ACK");
    AsciiWord("OK", [79, 75]);
    if |v.elems| == 2 { UnsignedOf(AsInteger(v.elems[1])); }
  }

  lemma UnsignedOf(n: int)
    ensures 0 <= n < U64 ==> Unsigned64(n) == n
    ensures -U64 <= n < 0 ==> Unsigned64(n) == n + U64
  {
  }

  /** Everything else gets one error and does nothing. */
  lemma OtherCommand(clientId: Bytes, v: RespValue)
    requires !Is(v, "SUBSCRIBE") && !Is(v, "UNSUBSCRIBE") && !Is(v, "PUBLISH") && !Is(v, "PING") && !Is(v, "ACK")
    ensures HandleCommand(clientId, v) ==
            [SendResp(Error(if !v.Array? then Ascii("ERR Protocol error: expected array")
                            else if v.elems == [] then Ascii("ERR empty command")
                            else Ascii("ERR unknown command '") + Upper(AsString(v.elems[0])) + Ascii("'")))]
  {
    hide Upper, Ascii, AsString, Confirmed, Named, Serialize, Unsigned64;
    IsIff(v, "SUBSCRIBE");
    IsIff(v, "UNSUBSCRIBE");
    IsIff(v, "PUBLISH");
    IsIff(v, "PING");
    IsIff(v, "ACK");
  }
}
