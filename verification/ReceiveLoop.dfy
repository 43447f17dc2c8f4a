/**
  * The receive side of a session: chunks are appended to a buffer, the protocol is
  * taken from the first byte, and complete frames are drained after every chunk.
  */
module ReceiveLoop {
  import opened ByteStrings
  import opened Framing
  import Resp
  import BinaryProtocol

  const MAX_RECV_BUFFER: nat := 16 * 1024 * 1024
  const RECV_CHUNK: nat := 4096

  datatype Protocol = UNKNOWN | RESP | BINARY

  function Detect(buffer: Bytes): Protocol {
    if buffer == [] then UNKNOWN
    else if buffer[0] in {Resp.SIMPLE, Resp.ERROR, Resp.INTEGER, Resp.BULK, Resp.ARRAY} then RESP
    else if buffer[0] == BinaryProtocol.VERSION then BINARY
    else UNKNOWN
  }

  /**
    * What a session has received: the frames handed on so far and the bytes still waiting;
    * and the error frames the loop itself has sent.
    */
  datatype Inbox = Inbox(
    protocol: Protocol, buffer: Bytes,
    commands: seq<Resp.RespValue>, frames: seq<BinaryProtocol.Frame>,
    open: bool, errors: seq<BinaryProtocol.Frame>)

  const FRESH := Inbox(UNKNOWN, [], [], [], true, [])

  /** The farewell of a session whose buffer would exceed the cap, whatever protocol it speaks. */
  function TooLarge(): BinaryProtocol.Frame {
    BinaryProtocol.ErrorFrame(Ascii("Message too large ") + [0xE2, 0x80, 0x94] + Ascii(" connection closed"))
  }

  ghost function DrainInbox(i: Inbox): Inbox {
    match i.protocol
    case UNKNOWN => i
    case RESP =>
      Resp.IsStableParser();
      var d := Drain(Resp.Parse, i.buffer);
      i.(buffer := d.rest, commands := i.commands + d.frames)
    case BINARY =>
      BinaryProtocol.IsStableParser();
      var d := Drain(BinaryProtocol.Parse, i.buffer);
      i.(buffer := d.rest, frames := i.frames + d.frames)
  }

  /** One turn of the receive loop; an empty chunk is the peer closing the connection. */
  ghost function Feed(i: Inbox, chunk: Bytes): Inbox {
    if !i.open then i
    else if chunk == [] then i.(open := false)
    else if |i.buffer| + |chunk| > MAX_RECV_BUFFER then i.(open := false, errors := i.errors + [TooLarge()])
    else
      var b := i.buffer + chunk;
      DrainInbox(i.(buffer := b, protocol := if i.protocol.UNKNOWN? then Detect(b) else i.protocol))
  }

  ghost function Run(chunks: seq<Bytes>): Inbox {
    if chunks == [] then FRESH else Feed(Run(chunks[..|chunks| - 1]), chunks[|chunks| - 1])
  }

  /** The reference: the whole stream at once, no cap. */
  ghost function Decode(stream: Bytes): Inbox {
    DrainInbox(Inbox(Detect(stream), stream, [], [], true, []))
  }

  /** Still reading, closed by the peer, or closed because the cap was broken. */
  datatype Ending = Reading | PeerClosed | Capped

  ghost function Ended(stream: Bytes, end: Ending): Inbox {
    Decode(stream).(open := end.Reading?, errors := if end.Capped? then [TooLarge()] else [])
  }

  /** The answer to a broken cap: one frame of command 8 with this text, whatever the protocol. */
  lemma CapAnswer()
    ensures var f := TooLarge();
            && f.version == 1 && f.command == 8 && f.sequence == 0 && f.topic == [] && !f.isSigned
            && f.payload == Ascii("Message too large ") + [0xE2, 0x80, 0x94] + Ascii(" connection closed")
  {
    hide Ascii;
  }

  // ----- Chunking -----

  /** The protocol is settled by the first byte alone: one of + - : $ * is RESP, 1 is binary, nothing else is known. */
  lemma DetectFirstByte(stream: Bytes, more: Bytes)
    requires stream != []
    ensures Detect(stream + more) == Detect(stream) == Detect(stream[..1])
    ensures Detect(stream) == RESP <==> stream[0] in {43, 45, 58, 36, 42}
    ensures Detect(stream) == BINARY <==> stream[0] == 1
  {
    assert (stream + more)[0] == stream[0];
  }

  lemma DrainInboxThenAppend(p: Protocol, b: Bytes, more: Bytes)
    requires p != UNKNOWN
    ensures var i := DrainInbox(Inbox(p, b, [], [], true, []));
            DrainInbox(i.(buffer := i.buffer + more)) == DrainInbox(Inbox(p, b + more, [], [], true, []))
  {
    hide Resp.Parse, BinaryProtocol.Parse, Drain;
    var i := DrainInbox(Inbox(p, b, [], [], true, []));
    var j := DrainInbox(Inbox(p, b + more, [], [], true, []));
    if p == RESP {
      Resp.IsStableParser();
      DrainThenAppend(Resp.Parse, b, more);
      assert i.commands + Drain(Resp.Parse, i.buffer + more).frames == j.commands;
    } else {
      BinaryProtocol.IsStableParser();
      DrainThenAppend(BinaryProtocol.Parse, b, more);
      assert i.frames + Drain(BinaryProtocol.Parse, i.buffer + more).frames == j.frames;
    }
  }

  lemma DecodeEmpty()
    ensures Decode(Concat([])) == FRESH
  {
  }

  lemma DecodedIsOpen(stream: Bytes)
    ensures Decode(stream).open && Decode(stream).errors == []
  {
    hide Resp.Parse, BinaryProtocol.Parse, Drain, Detect;
  }

  /** Below the cap, one more chunk takes the decoding of a stream to the decoding of the longer stream. */
  lemma FeedDecoded(stream: Bytes, chunk: Bytes)
    requires chunk != [] && |Decode(stream).buffer| + |chunk| <= MAX_RECV_BUFFER
    ensures Feed(Decode(stream), chunk) == Decode(stream + chunk)
  {
    hide Resp.Parse, BinaryProtocol.Parse, Drain, TooLarge;
    if stream == [] {
      assert stream + chunk == chunk;
    } else {
      DetectFirstByte(stream, chunk);
      if Detect(stream) != UNKNOWN {
        DrainInboxThenAppend(Detect(stream), stream, chunk);
      }
    }
  }

  /**
    * However a stream is cut into chunks, the session is as if it had decoded at once everything
    * up to the first chunk that was empty, which is the peer closing, or broke the cap; the whole
    * stream if none did.  The error frame is sent once, exactly when the cap is broken.
    */
  lemma {:induction false} ChunkingIndependence(chunks: seq<Bytes>) returns (accepted: nat)
    ensures accepted <= |chunks| && forall i :: 0 <= i < accepted ==> chunks[i] != []
    ensures Run(chunks) == Ended(Concat(chunks[..accepted]),
                                 if accepted == |chunks| then Reading else if chunks[accepted] == [] then PeerClosed else Capped)
    ensures accepted < |chunks| ==> chunks[accepted] == [] || |Run(chunks).buffer| + |chunks[accepted]| > 16777216
    decreases |chunks|
  {
    hide DrainInbox, Detect, TooLarge, Concat;
    if chunks == [] {
      DecodeEmpty();
      return 0;
    }
    var n := |chunks| - 1;
    var init, last := chunks[..n], chunks[n];
    accepted := ChunkingIndependence(init);
    assert init[..accepted] == chunks[..accepted];
    if accepted == n {
      var stream := Concat(chunks[..n]);
      DecodedIsOpen(stream);
      assert Run(init) == Decode(stream);
      assert Run(chunks) == Feed(Decode(stream), last);
      if last != [] && |Decode(stream).buffer| + |last| <= MAX_RECV_BUFFER {
        FeedDecoded(stream, last);
        DecodedIsOpen(stream + last);
        ConcatSnoc(init, last);
        assert chunks[..n + 1] == chunks == init + [last];
        accepted := n + 1;
      }
    }
  }

  /** Two ways of cutting one stream that stay below the cap give the same frames and the same leftover. */
  lemma SameStreamSameInbox(chunks: seq<Bytes>, others: seq<Bytes>)
    requires forall i :: 0 <= i < |chunks| ==> chunks[i] != []
    requires forall i :: 0 <= i < |others| ==> others[i] != []
    requires Concat(chunks) == Concat(others) && Run(chunks).open && Run(others).open
    ensures Run(chunks) == Run(others) == Decode(Concat(chunks))
  {
    hide DrainInbox, Detect, TooLarge, Concat, Run;
    var a := ChunkingIndependence(chunks);
    var b := ChunkingIndependence(others);
    assert chunks[..a] == chunks && others[..b] == others;
    DecodedIsOpen(Concat(chunks));
  }

  // ----- The cap -----

  ghost predicate SmallChunks(chunks: seq<Bytes>) {
    forall i :: 0 <= i < |chunks| ==> 0 < |chunks[i]| <= RECV_CHUNK
  }

  function Least(m: nat, n: nat): nat { if m <= n then m else n }

  /** No way of receiving the stream, or a part of it, in small chunks breaks the cap. */
  ghost predicate NeverDropped(stream: Bytes) {
    forall chunks :: SmallChunks(chunks) && Concat(chunks) <= stream ==> Run(chunks).open
  }

  /** Room for any chunk that can come next, after decoding any prefix of the stream. */
  ghost predicate LeavesRoom(stream: Bytes) {
    forall b :: b <= stream ==> |Decode(b).buffer| + Least(RECV_CHUNK, |stream| - |b|) <= MAX_RECV_BUFFER
  }

  lemma {:induction false} ConcatPrefix(chunks: seq<Bytes>, k: nat)
    requires k <= |chunks|
    ensures Concat(chunks[..k]) <= Concat(chunks)
    decreases |chunks| - k
  {
    if k < |chunks| {
      ConcatSnoc(chunks[..k], chunks[k]);
      assert chunks[..k + 1] == chunks[..k] + [chunks[k]];
      ConcatPrefix(chunks, k + 1);
    } else {
      assert chunks[..k] == chunks;
    }
  }

  lemma NextChunkFollows(chunks: seq<Bytes>, k: nat, stream: Bytes)
    requires k < |chunks| && Concat(chunks) <= stream
    ensures Concat(chunks[..k]) <= stream && |Concat(chunks[..k])| + |chunks[k]| <= |stream|
  {
    hide Concat;
    ConcatSnoc(chunks[..k], chunks[k]);
    assert chunks[..k + 1] == chunks[..k] + [chunks[k]];
    ConcatPrefix(chunks, k + 1);
    assert Concat(chunks[..k]) <= Concat(chunks[..k]) + chunks[k];
  }

  lemma NeverCapped(chunks: seq<Bytes>, stream: Bytes)
    requires SmallChunks(chunks) && Concat(chunks) <= stream && LeavesRoom(stream)
    ensures Run(chunks) == Decode(Concat(chunks)) && Run(chunks).open
  {
    hide DrainInbox, Detect, TooLarge, Concat;
    var accepted := ChunkingIndependence(chunks);
    if accepted < |chunks| { NextChunkFollows(chunks, accepted, stream); }
    assert chunks[..accepted] == chunks;
    DecodedIsOpen(Concat(chunks));
  }

  function RespWires(values: seq<Resp.RespValue>): (r: seq<Bytes>)
    ensures |r| == |values|
  {
    seq(|values|, i requires 0 <= i < |values| => Resp.Serialize(values[i]))
  }

  function BinaryWires(frames: seq<BinaryProtocol.Frame>): (r: seq<Bytes>)
    ensures |r| == |frames|
  {
    seq(|frames|, i requires 0 <= i < |frames| => BinaryProtocol.Serialize(frames[i]))
  }

  /**
    * All but the last byte of an encoding wait in the buffer; the last byte then comes in a
    * chunk with what follows it, as much as fits in one chunk.
    */
  ghost predicate FitsBuffer(wires: seq<Bytes>) {
    forall i :: 0 <= i < |wires| ==>
      |wires[i]| - 1 + Least(4096, 1 + |Concat(wires[i + 1..])|) <= 16777216
  }

  /** Decoding any prefix of the stream keeps a proper prefix of one encoding. */
  ghost predicate CutsAlong(wires: seq<Bytes>) {
    forall b :: b <= Concat(wires) ==> HasCut(wires, b)
  }

  ghost predicate HasCut(wires: seq<Bytes>, b: Bytes) {
    exists done: nat :: CutAt(wires, b, done, Decode(b).buffer)
  }

  lemma {:induction false} ConcatSplit(wires: seq<Bytes>, k: nat)
    requires k <= |wires|
    ensures Concat(wires) == Concat(wires[..k]) + Concat(wires[k..])
    decreases |wires| - k
  {
    if k == |wires| {
      assert wires[..k] == wires && Concat(wires[k..]) == [];
    } else {
      ConcatSplit(wires, k + 1);
      ConcatSnoc(wires[..k], wires[k]);
      assert wires[..k + 1] == wires[..k] + [wires[k]];
      assert wires[k..][1..] == wires[k + 1..];
      assert (Concat(wires[..k]) + wires[k]) + Concat(wires[k + 1..]) == Concat(wires[..k]) + (wires[k] + Concat(wires[k + 1..]));
    }
  }

  /** The stream up to an encoding, the encoding, and what follows. */
  lemma ConcatAround(wires: seq<Bytes>, i: nat)
    requires i < |wires|
    ensures Concat(wires) == Concat(wires[..i]) + (wires[i] + Concat(wires[i + 1..]))
    ensures Concat(wires[..i + 1]) == Concat(wires[..i]) + wires[i]
  {
    ConcatSplit(wires, i);
    ConcatSnoc(wires[..i], wires[i]);
    assert wires[..i + 1] == wires[..i] + [wires[i]];
    assert wires[i..][1..] == wires[i + 1..];
  }

  lemma ConcatGrows(wires: seq<Bytes>, j: nat, k: nat)
    requires j <= k <= |wires|
    ensures |Concat(wires[..j])| <= |Concat(wires[..k])|
  {
    ConcatPrefix(wires[..k], j);
    assert wires[..k][..j] == wires[..j];
  }

  /** A stream is cut in one place only. */
  lemma CutIs(wires: seq<Bytes>, b: Bytes, i: nat, part: Bytes, done: nat, rest: Bytes)
    requires CutAt(wires, b, i, part) && CutAt(wires, b, done, rest)
    ensures done == i && rest == part
  {
    hide Concat;
    if done < i {
      ConcatAround(wires, done);
      ConcatGrows(wires, done + 1, i);
    } else if i < done {
      ConcatAround(wires, i);
      ConcatGrows(wires, i + 1, done);
    }
  }

  /** What can come in one chunk after a cut fits. */
  lemma CutLeavesRoom(wires: seq<Bytes>, b: Bytes, done: nat, rest: Bytes)
    requires CutAt(wires, b, done, rest) && FitsBuffer(wires) && b <= Concat(wires)
    ensures |rest| + Least(RECV_CHUNK, |Concat(wires)| - |b|) <= MAX_RECV_BUFFER
  {
    hide Concat;
    if done < |wires| {
      ConcatAround(wires, done);
    } else {
      assert wires[..done] == wires;
    }
  }

  /** One byte per chunk. */
  function Bytewise(b: Bytes): seq<Bytes> {
    if b == [] then [] else Bytewise(b[..|b| - 1]) + [[b[|b| - 1]]]
  }

  lemma {:induction false} BytewiseConcat(b: Bytes)
    ensures SmallChunks(Bytewise(b)) && Concat(Bytewise(b)) == b
    decreases |b|
  {
    if b != [] {
      BytewiseConcat(b[..|b| - 1]);
      ConcatSnoc(Bytewise(b[..|b| - 1]), [b[|b| - 1]]);
    }
  }

  /** A chunk too many after a prefix received byte by byte. */
  lemma Overfull(b: Bytes, chunk: Bytes)
    requires 0 < |chunk| <= RECV_CHUNK && |Decode(b).buffer| + |chunk| > MAX_RECV_BUFFER
    ensures SmallChunks(Bytewise(b) + [chunk]) && Concat(Bytewise(b) + [chunk]) == b + chunk
    ensures !Run(Bytewise(b) + [chunk]).open
  {
    hide DrainInbox, Detect, TooLarge, Concat, Bytewise;
    BytewiseConcat(b);
    var init := Bytewise(b);
    ConcatSnoc(init, chunk);
    var accepted := ChunkingIndependence(init);
    assert init[..|init|] == init && (init + [chunk])[..|init|] == init;
  }

  lemma UnfitIsDropped(wires: seq<Bytes>, i: nat)
    requires CutsAlong(wires) && i < |wires| && wires[i] != []
    requires |wires[i]| - 1 + Least(RECV_CHUNK, 1 + |Concat(wires[i + 1..])|) > MAX_RECV_BUFFER
    ensures !NeverDropped(Concat(wires))
  {
    hide Concat, Decode, Run;
    ConcatAround(wires, i);
    var stream, w := Concat(wires), wires[i];
    var part := w[..|w| - 1];
    var b := Concat(wires[..i]) + part;
    var n := Least(RECV_CHUNK, 1 + |Concat(wires[i + 1..])|);
    assert w == part + [w[|w| - 1]];
    assert stream == b + ([w[|w| - 1]] + Concat(wires[i + 1..]));
    var chunk := stream[|b|..|b| + n];
    assert b + chunk <= stream;
    assert HasCut(wires, b);
    var done: nat :| CutAt(wires, b, done, Decode(b).buffer);
    CutIs(wires, b, i, part, done, Decode(b).buffer);
    Overfull(b, chunk);
  }

  lemma FittingLeavesRoom(wires: seq<Bytes>)
    requires CutsAlong(wires) && FitsBuffer(wires)
    ensures LeavesRoom(Concat(wires)) && NeverDropped(Concat(wires))
  {
    hide Concat, Decode, Run, CutAt, FitsBuffer;
    forall b | b <= Concat(wires)
      ensures |Decode(b).buffer| + Least(RECV_CHUNK, |Concat(wires)| - |b|) <= MAX_RECV_BUFFER
    {
      assert HasCut(wires, b);
      var done: nat :| CutAt(wires, b, done, Decode(b).buffer);
      CutLeavesRoom(wires, b, done, Decode(b).buffer);
    }
    forall chunks | SmallChunks(chunks) && Concat(chunks) <= Concat(wires) ensures Run(chunks).open {
      NeverCapped(chunks, Concat(wires));
    }
  }

  /** A stream is never dropped, however it is received in small chunks, if and only if every encoding fits. */
  lemma NeverDroppedIff(wires: seq<Bytes>)
    requires CutsAlong(wires) && forall i :: 0 <= i < |wires| ==> wires[i] != []
    ensures NeverDropped(Concat(wires)) <==> FitsBuffer(wires)
    ensures FitsBuffer(wires) ==> LeavesRoom(Concat(wires))
  {
    hide Concat, CutsAlong, Least, NeverDropped, LeavesRoom;
    if FitsBuffer(wires) {
      FittingLeavesRoom(wires);
    } else {
      var i :| 0 <= i < |wires| && |wires[i]| - 1 + Least(RECV_CHUNK, 1 + |Concat(wires[i + 1..])|) > MAX_RECV_BUFFER;
      UnfitIsDropped(wires, i);
    }
  }

  lemma ConcatFirstByte(wires: seq<Bytes>, b: Bytes)
    requires b != [] && b <= Concat(wires)
    requires forall i :: 0 <= i < |wires| ==> wires[i] != []
    ensures wires != [] && b[0] == wires[0][0]
  {
  }

  lemma RespWireDetected(v: Resp.RespValue)
    requires Resp.WithinLimits(v)
    ensures Detect(Resp.Serialize(v)) == RESP
  {
  }

  lemma DecodeResp(b: Bytes)
    requires Detect(b) == RESP && Progress(Resp.Parse)
    ensures Decode(b).commands == Drain(Resp.Parse, b).frames && Decode(b).frames == []
    ensures Decode(b).buffer == Drain(Resp.Parse, b).rest
  {
    hide Drain, Resp.Parse;
  }

  /** Decoding any prefix of a RESP stream yields a prefix of its values and keeps less than one encoding. */
  lemma RespLeavesRoom(values: seq<Resp.RespValue>, b: Bytes) returns (done: nat)
    requires forall i :: 0 <= i < |values| ==> Resp.WithinLimits(values[i])
    requires b <= Concat(RespWires(values))
    ensures done <= |values| && CutAt(RespWires(values), b, done, Decode(b).buffer)
    ensures Decode(b).commands == values[..done] && Decode(b).frames == []
  {
    hide Drain, CutAt, Resp.Parse, Resp.Serialize, Resp.WithinLimits;
    var wires := RespWires(values);
    if b == [] {
      CutAtStart(wires, b);
      return 0;
    }
    forall i | 0 <= i < |wires| ensures Encodes(Resp.Parse, wires[i], values[i]) {
      Resp.SerializedEncodes(values[i]);
    }
    ConcatFirstByte(wires, b);
    RespWireDetected(values[0]);
    Resp.IsStableParser();
    DecodeResp(b);
    done := DrainStreamPrefix(Resp.Parse, wires, values, b);
  }

  lemma BinaryWireDetected(v: BinaryProtocol.Frame)
    requires BinaryProtocol.Canonical(v)
    ensures Detect(BinaryProtocol.Serialize(v)) == BINARY
  {
  }

  lemma DecodeBinary(b: Bytes)
    requires Detect(b) == BINARY && Progress(BinaryProtocol.Parse)
    ensures Decode(b).frames == Drain(BinaryProtocol.Parse, b).frames && Decode(b).commands == []
    ensures Decode(b).buffer == Drain(BinaryProtocol.Parse, b).rest
  {
    hide Drain, BinaryProtocol.Parse;
  }

  /** Decoding any prefix of a BINARY stream yields a prefix of its values and keeps less than one encoding. */
  lemma BinaryLeavesRoom(frames: seq<BinaryProtocol.Frame>, b: Bytes) returns (done: nat)
    requires forall i :: 0 <= i < |frames| ==> BinaryProtocol.Canonical(frames[i])
    requires b <= Concat(BinaryWires(frames))
    ensures done <= |frames| && CutAt(BinaryWires(frames), b, done, Decode(b).buffer)
    ensures Decode(b).frames == frames[..done] && Decode(b).commands == []
  {
    hide Drain, CutAt, BinaryProtocol.Parse, BinaryProtocol.Serialize, BinaryProtocol.Canonical;
    var wires := BinaryWires(frames);
    if b == [] {
      CutAtStart(wires, b);
      return 0;
    }
    forall i | 0 <= i < |wires| ensures Encodes(BinaryProtocol.Parse, wires[i], frames[i]) {
      BinaryProtocol.SerializedEncodes(frames[i]);
    }
    ConcatFirstByte(wires, b);
    BinaryWireDetected(frames[0]);
    BinaryProtocol.IsStableParser();
    DecodeBinary(b);
    done := DrainStreamPrefix(BinaryProtocol.Parse, wires, frames, b);
  }

  /**
    * A RESP stream is never dropped, however it is received in small chunks, if and only if
    * its values fit; and received to its end it is then decoded in full.
    */
  lemma RespNeverDroppedIff(values: seq<Resp.RespValue>)
    requires forall i :: 0 <= i < |values| ==> Resp.WithinLimits(values[i])
    ensures NeverDropped(Concat(RespWires(values))) <==> FitsBuffer(RespWires(values))
    ensures FitsBuffer(RespWires(values)) ==>
              forall chunks :: SmallChunks(chunks) && Concat(chunks) == Concat(RespWires(values)) ==>
                Run(chunks).commands == values && Run(chunks).buffer == []
  {
    hide Run, Decode, CutAt, Concat, Resp.WithinLimits, LeavesRoom, FitsBuffer, Resp.Serialize;
    var wires := RespWires(values);
    forall b | b <= Concat(wires) ensures HasCut(wires, b) {
      var done := RespLeavesRoom(values, b);
    }
    NeverDroppedIff(wires);
    if FitsBuffer(wires) {
      forall chunks | SmallChunks(chunks) && Concat(chunks) == Concat(wires)
        ensures Run(chunks).commands == values && Run(chunks).buffer == []
      {
        NeverCapped(chunks, Concat(wires));
        var done := RespLeavesRoom(values, Concat(chunks));
        WholeStream(wires, Concat(chunks), done, Decode(Concat(chunks)).buffer);
      }
    }
  }

  /** The same for the binary protocol. */
  lemma BinaryNeverDroppedIff(frames: seq<BinaryProtocol.Frame>)
    requires forall i :: 0 <= i < |frames| ==> BinaryProtocol.Canonical(frames[i])
    ensures NeverDropped(Concat(BinaryWires(frames))) <==> FitsBuffer(BinaryWires(frames))
    ensures FitsBuffer(BinaryWires(frames)) ==>
              forall chunks :: SmallChunks(chunks) && Concat(chunks) == Concat(BinaryWires(frames)) ==>
                Run(chunks).frames == frames && Run(chunks).buffer == []
  {
    hide Run, Decode, CutAt, Concat, BinaryProtocol.Canonical, LeavesRoom, FitsBuffer, BinaryProtocol.Serialize;
    var wires := BinaryWires(frames);
    forall b | b <= Concat(wires) ensures HasCut(wires, b) {
      var done := BinaryLeavesRoom(frames, b);
    }
    NeverDroppedIff(wires);
    if FitsBuffer(wires) {
      forall chunks | SmallChunks(chunks) && Concat(chunks) == Concat(wires)
        ensures Run(chunks).frames == frames && Run(chunks).buffer == []
      {
        NeverCapped(chunks, Concat(wires));
        var done := BinaryLeavesRoom(frames, Concat(chunks));
        WholeStream(wires, Concat(chunks), done, Decode(Concat(chunks)).buffer);
      }
    }
  }

  /** An encoding longer than the buffer is dropped however it is received. */
  lemma OversizedIsDropped(wire: Bytes, chunks: seq<Bytes>)
    requires CutsAlong([wire]) && |wire| > MAX_RECV_BUFFER && Concat(chunks) == wire
    requires forall i :: 0 <= i < |chunks| ==> chunks[i] != []
    ensures !Run(chunks).open
  {
    hide Concat, DrainInbox, Detect, TooLarge, CutAt;
    ConcatSingle(wire);
    if chunks == [] {
      ConcatNothing();
    } else {
      var n := |chunks| - 1;
      var init, last := chunks[..n], chunks[n];
      assert chunks == init + [last];
      ConcatSnoc(init, last);
      var b := Concat(init);
      CutAtStart([wire], b);
      assert HasCut([wire], b);
      var done: nat :| CutAt([wire], b, done, Decode(b).buffer);
      CutIs([wire], b, 0, b, done, Decode(b).buffer);
      var accepted := ChunkingIndependence(init);
      assert init[..|init|] == init;
    }
  }

  lemma ConcatNothing()
    ensures Concat([]) == []
  {
  }

  lemma ConcatSingle(wire: Bytes)
    ensures Concat([wire]) == wire
  {
    assert [wire][1..] == [] && wire + [] == wire;
  }

  /** A frame with the largest payload the format allows is one. */
  lemma LargestPayloadDropped(topic: Bytes, payload: Bytes, sequence: nat, chunks: seq<Bytes>)
    requires |topic| <= BinaryProtocol.MAX_TOPIC_LEN && |payload| == BinaryProtocol.MAX_PAYLOAD_LEN && sequence < U64
    requires Concat(chunks) == BinaryProtocol.Serialize(BinaryProtocol.Message(topic, payload, sequence))
    requires forall i :: 0 <= i < |chunks| ==> chunks[i] != []
    ensures BinaryProtocol.Canonical(BinaryProtocol.Message(topic, payload, sequence)) && !Run(chunks).open
  {
    var f := BinaryProtocol.Message(topic, payload, sequence);
    assert BinaryProtocol.Canonical(f);
    assert |BinaryProtocol.Serialize(f)| > MAX_RECV_BUFFER;
    hide Concat, Decode, Run, CutAt, BinaryProtocol.Canonical, BinaryProtocol.Serialize;
    var wires := BinaryWires([f]);
    assert wires == [BinaryProtocol.Serialize(f)];
    forall b | b <= Concat(wires) ensures HasCut(wires, b) {
      var done := BinaryLeavesRoom([f], b);
    }
    OversizedIsDropped(BinaryProtocol.Serialize(f), chunks);
  }

  /** A cut of the whole stream is at its end. */
  lemma WholeStream(wires: seq<Bytes>, b: Bytes, done: nat, rest: Bytes)
    requires CutAt(wires, b, done, rest)
    ensures b == Concat(wires) ==> done == |wires| && rest == []
  {
    hide Concat;
    if done < |wires| {
      ConcatSnoc(wires[..done], wires[done]);
      assert wires[..done + 1] == wires[..done] + [wires[done]];
      ConcatPrefix(wires, done + 1);
      assert |b| < |Concat(wires)|;
    }
  }
}
