/**
  * The binary codec: a 16-byte big-endian header, a topic, a payload and, on signed
  * commands, a 64-byte signature and a key id.
  */
module BinaryProtocol {
  import opened ByteStrings
  import opened Framing

  const VERSION: byte := 1

  const CMD_SUBSCRIBE: byte := 0x01
  const CMD_UNSUBSCRIBE: byte := 0x02
  const CMD_PUBLISH: byte := 0x03
  const CMD_MESSAGE: byte := 0x04
  const CMD_ACK: byte := 0x05
  const CMD_PING: byte := 0x06
  const CMD_PONG: byte := 0x07
  const CMD_ERROR: byte := 0x08
  const CMD_SIGNED_PUBLISH: byte := 0x10
  const CMD_SIGNED_MESSAGE: byte := 0x11

  const MIN_FRAME_SIZE: nat := 16
  const MAX_TOPIC_LEN: nat := 256
  const MAX_PAYLOAD_LEN: nat := 16 * 1024 * 1024
  const SIGNATURE_SIZE: nat := 64
  const KEY_ID_SIZE: nat := 4

  /** The signature field of a frame that carries none. */
  const NO_SIGNATURE: Bytes := Zeros(SIGNATURE_SIZE)

  function Zeros(n: nat): (r: Bytes)
    ensures |r| == n
  {
    if n == 0 then [] else [0] + Zeros(n - 1)
  }

  datatype Frame = Frame(
    version: byte, command: byte, sequence: nat, topic: Bytes, payload: Bytes,
    signature: Bytes, keyId: nat, isSigned: bool)

  predicate IsSignedCommand(command: byte) {
    command == CMD_SIGNED_PUBLISH || command == CMD_SIGNED_MESSAGE
  }

  function Plain(command: byte, topic: Bytes, payload: Bytes, sequence: nat): Frame {
    Frame(VERSION, command, sequence, topic, payload, NO_SIGNATURE, 0, false)
  }

  /** BinaryFrame::message and BinaryFrame::signed_message. */
  function Message(topic: Bytes, payload: Bytes, sequence: nat): Frame {
    Plain(CMD_MESSAGE, topic, payload, sequence)
  }

  function SignedMessage(topic: Bytes, payload: Bytes, signature: Bytes, keyId: nat, sequence: nat): Frame {
    Frame(VERSION, CMD_SIGNED_MESSAGE, sequence, topic, payload, signature, keyId, true)
  }

  /** BinaryFrame::ack, BinaryFrame::pong and BinaryFrame::error. */
  function AckFrame(sequence: nat): Frame {
    Plain(CMD_ACK, [], [], sequence)
  }

  function PongFrame(): Frame {
    Plain(CMD_PONG, [], [], 0)
  }

  function ErrorFrame(text: Bytes): Frame {
    Plain(CMD_ERROR, [], text, 0)
  }

  // ----- Wire format -----

  /** Lengths are written in two and four bytes: longer topics and payloads lose their high bits. */
  function HeaderOf(f: Frame): (r: Bytes)
    ensures |r| == MIN_FRAME_SIZE
  {
    [f.version, f.command] + BigEndian(f.sequence, 8) + BigEndian(|f.topic|, 2) + BigEndian(|f.payload|, 4)
  }

  function TrailerOf(f: Frame): Bytes {
    if f.isSigned then f.signature + BigEndian(f.keyId, 4) else []
  }

  function Serialize(f: Frame): (r: Bytes)
    ensures |r| >= MIN_FRAME_SIZE
  {
    HeaderOf(f) + f.topic + f.payload + TrailerOf(f)
  }

  function TotalSize(command: byte, topicLen: nat, payloadLen: nat): nat {
    MIN_FRAME_SIZE + topicLen + payloadLen + if IsSignedCommand(command) then SIGNATURE_SIZE + KEY_ID_SIZE else 0
  }

  function Parse(b: Bytes): (r: Parsed<Frame>)
    ensures r.Parsed? ==> MIN_FRAME_SIZE <= r.used <= |b|
  {
    if |b| < MIN_FRAME_SIZE || b[0] != VERSION then Incomplete
    else
      var command := b[1];
      var topicLen := FromBigEndian(b[10..12]);
      var payloadLen := FromBigEndian(b[12..16]);
      var total := TotalSize(command, topicLen, payloadLen);
      if topicLen > MAX_TOPIC_LEN || payloadLen > MAX_PAYLOAD_LEN || |b| < total then Incomplete
      else
        var p := MIN_FRAME_SIZE + topicLen;
        var s := p + payloadLen;
        var isSigned := IsSignedCommand(command);
        Parsed(Frame(VERSION, command, FromBigEndian(b[2..10]), b[MIN_FRAME_SIZE..p], b[p..s],
                     if isSigned then b[s..s + 64] else NO_SIGNATURE,
                     if isSigned then FromBigEndian(b[s + 64..s + 68]) else 0,
                     isSigned),
               total)
  }

  /** The serialiser as it runs, pushing bytes onto a buffer. */
  method Write(f: Frame) returns (buffer: Bytes)
    ensures buffer == Serialize(f)
  {
    buffer := [f.version];
    buffer := buffer + [f.command];
    buffer := PushBigEndian(buffer, f.sequence, 8);
    buffer := PushBigEndian(buffer, |f.topic|, 2);
    buffer := PushBigEndian(buffer, |f.payload|, 4);
    assert buffer == HeaderOf(f);
    buffer := buffer + f.topic;
    buffer := buffer + f.payload;
    if f.isSigned {
      ghost var body := buffer;
      buffer := buffer + f.signature;
      buffer := PushBigEndian(buffer, f.keyId, 4);
      assert buffer == body + TrailerOf(f);
    } else {
      assert buffer == buffer + TrailerOf(f);
    }
  }

  /** writeUint16, writeUint32 and writeUint64: one byte at a time, most significant first. */
  method PushBigEndian(buffer: Bytes, value: nat, width: nat) returns (out: Bytes)
    ensures out == buffer + BigEndian(value, width)
  {
    out := buffer;
    for i := 0 to width
      invariant out == buffer + BigEndian(Shifted(value, width - i), i)
    {
      out := out + [Shifted(value, width - i - 1) % 256];
    }
  }

  /** `value` shifted right by `bytes` bytes. */
  function Shifted(value: nat, bytes: nat): nat {
    if bytes == 0 then value else Shifted(value, bytes - 1) / 256
  }

  // ----- The frames the format can carry -----

  predicate Canonical(f: Frame) {
    && f.version == VERSION
    && f.sequence < U64
    && |f.topic| <= 256
    && |f.payload| <= 16777216
    && |f.signature| == 64
    && f.keyId < U32
    && f.isSigned == IsSignedCommand(f.command)
    && (!f.isSigned ==> f.signature == NO_SIGNATURE && f.keyId == 0)
  }

  /** Every frame the parser returns is canonical. */
  lemma ParsedIsCanonical(b: Bytes)
    requires Parse(b).Parsed?
    ensures Canonical(Parse(b).value)
  {
    Widths();
    FromBigEndianRoundTrip(b[2..10]);
    var f := Parse(b).value;
    if f.isSigned {
      var s := MIN_FRAME_SIZE + |f.topic| + |f.payload|;
      FromBigEndianRoundTrip(b[s + 64..s + 68]);
    }
  }

  lemma HeaderOfParsed(b: Bytes)
    requires Parse(b).Parsed?
    ensures HeaderOf(Parse(b).value) == b[..16]
  {
    hide BigEndian, FromBigEndian, Zeros;
    FromBigEndianRoundTrip(b[2..10]);
    FromBigEndianRoundTrip(b[10..12]);
    FromBigEndianRoundTrip(b[12..16]);
    assert b[..16] == [b[0], b[1]] + b[2..10] + b[10..12] + b[12..16];
  }

  lemma TrailerOfParsed(b: Bytes)
    requires Parse(b).Parsed?
    ensures var Parsed(f, n) := Parse(b);
            TrailerOf(f) == b[MIN_FRAME_SIZE + |f.topic| + |f.payload|..n]
  {
    hide BigEndian, FromBigEndian, Zeros;
    var Parsed(f, n) := Parse(b);
    if f.isSigned {
      var s := MIN_FRAME_SIZE + |f.topic| + |f.payload|;
      FromBigEndianRoundTrip(b[s + 64..s + 68]);
      assert b[s..n] == b[s..s + 64] + b[s + 64..s + 68];
    }
  }

  /** Serialising a parsed frame gives back exactly the bytes it was parsed from. */
  lemma SerializeParsed(b: Bytes)
    requires Parse(b).Parsed?
    ensures Serialize(Parse(b).value) == b[..Parse(b).used]
  {
    hide BigEndian, FromBigEndian, Zeros, HeaderOf, TrailerOf;
    var Parsed(f, n) := Parse(b);
    HeaderOfParsed(b);
    TrailerOfParsed(b);
    var p := MIN_FRAME_SIZE + |f.topic|;
    var s := p + |f.payload|;
    assert b[..n] == b[..16] + b[16..p] + b[p..s] + b[s..n];
  }

  lemma HeaderFields(f: Frame, rest: Bytes)
    requires Canonical(f)
    ensures var b := HeaderOf(f) + rest;
            && b[0] == VERSION && b[1] == f.command
            && FromBigEndian(b[2..10]) == f.sequence
            && FromBigEndian(b[10..12]) == |f.topic|
            && FromBigEndian(b[12..16]) == |f.payload|
  {
    Widths();
    BigEndianRoundTrip(f.sequence, 8);
    BigEndianRoundTrip(|f.topic|, 2);
    BigEndianRoundTrip(|f.payload|, 4);
    var b := HeaderOf(f) + rest;
    assert b[2..10] == BigEndian(f.sequence, 8);
    assert b[10..12] == BigEndian(|f.topic|, 2);
    assert b[12..16] == BigEndian(|f.payload|, 4);
  }

  /** Where the parts of a concatenation lie. */
  lemma Layout(h: Bytes, t: Bytes, p: Bytes, s: Bytes, rest: Bytes)
    ensures var b := h + t + p + s + rest;
            var i := |h| + |t|;
            var j := i + |p|;
            && b == h + (t + p + s + rest)
            && b[|h|..i] == t && b[i..j] == p && b[j..j + |s|] == s
  {
  }

  lemma ParseSerialized(f: Frame, rest: Bytes)
    requires Canonical(f)
    ensures Parse(Serialize(f) + rest) == Parsed(f, |Serialize(f)|)
  {
    hide BigEndian, FromBigEndian, Zeros, HeaderOf;
    var b := Serialize(f) + rest;
    Layout(HeaderOf(f), f.topic, f.payload, TrailerOf(f), rest);
    HeaderFields(f, f.topic + f.payload + TrailerOf(f) + rest);
    if f.isSigned {
      Widths();
      BigEndianRoundTrip(f.keyId, 4);
      var j := MIN_FRAME_SIZE + |f.topic| + |f.payload|;
      assert b[j..j + 64] == b[j..j + 68][..64] && b[j + 64..j + 68] == b[j..j + 68][64..];
    }
  }

  /** The round trip holds for exactly the canonical frames. */
  lemma RoundTrip(f: Frame, rest: Bytes)
    ensures Parse(Serialize(f) + rest) == Parsed(f, |Serialize(f)|) <==> Canonical(f)
  {
    if Canonical(f) {
      ParseSerialized(f, rest);
    } else if Parse(Serialize(f) + rest) == Parsed(f, |Serialize(f)|) {
      ParsedIsCanonical(Serialize(f) + rest);
      assert false;
    }
  }

  /** Once a frame has been parsed, bytes that arrive later do not change it. */
  lemma ParseStable(b: Bytes, more: Bytes)
    requires Parse(b).Parsed?
    ensures Parse(b + more) == Parse(b)
  {
    hide Parse, Serialize;
    ParsedIsCanonical(b);
    SerializeParsed(b);
    var Parsed(f, n) := Parse(b);
    assert b + more == Serialize(f) + (b[n..] + more);
    ParseSerialized(f, b[n..] + more);
  }

  lemma IsStableParser()
    ensures Progress(Parse) && Stable(Parse)
  {
    forall b: Bytes, more: Bytes | Parse(b).Parsed? ensures Parse(b + more) == Parse(b) {
      ParseStable(b, more);
    }
  }

  lemma SerializedEncodes(f: Frame)
    requires Canonical(f)
    ensures Encodes(Parse, Serialize(f), f)
  {
    forall rest: Bytes ensures Parse(Serialize(f) + rest) == Parsed(f, |Serialize(f)|) {
      ParseSerialized(f, rest);
    }
  }

  /**
    * The wire format by its offsets: version, command, number in eight bytes, topic length in two,
    * payload length in four, topic, payload and, on commands 16 and 17, signature and key id.
    */
  lemma WireFormat(f: Frame)
    requires Canonical(f)
    ensures var w := Serialize(f);
            var t, p := |f.topic|, |f.payload|;
            && |w| == 16 + t + p + (if f.command == 16 || f.command == 17 then 68 else 0)
            && w[0] == 1 && w[1] == f.command
            && w[2..10] == BigEndian(f.sequence, 8) && w[10..12] == BigEndian(t, 2) && w[12..16] == BigEndian(p, 4)
            && w[16..16 + t] == f.topic && w[16 + t..16 + t + p] == f.payload
            && (f.command == 16 || f.command == 17 ==>
                  w[16 + t + p..80 + t + p] == f.signature && w[80 + t + p..] == BigEndian(f.keyId, 4))
  {
    hide BigEndian;
    var w, h := Serialize(f), HeaderOf(f);
    var s := 16 + |f.topic| + |f.payload|;
    assert h[2..10] == BigEndian(f.sequence, 8) && h[10..12] == BigEndian(|f.topic|, 2) && h[12..16] == BigEndian(|f.payload|, 4);
    assert w[..16] == h;
    assert w[2..10] == w[..16][2..10] && w[10..12] == w[..16][10..12] && w[12..16] == w[..16][12..16];
    if f.isSigned { assert w[s..] == f.signature + BigEndian(f.keyId, 4); }
  }

  /** Exactly the buffers that start with the wire format of some frame the format can carry are parsed, to that frame. */
  lemma ParsesIff(b: Bytes, f: Frame)
    ensures Parse(b).Parsed? && Parse(b).value == f <==> Canonical(f) && Serialize(f) <= b
  {
    hide Parse, Serialize, Canonical;
    if Parse(b).Parsed? && Parse(b).value == f {
      ParsedIsCanonical(b);
      SerializeParsed(b);
    }
    if Canonical(f) && Serialize(f) <= b {
      ParseSerialized(f, b[|Serialize(f)|..]);
      assert b == Serialize(f) + b[|Serialize(f)|..];
    }
  }
}
