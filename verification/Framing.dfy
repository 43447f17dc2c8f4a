/**
  * Draining a receive buffer with an incremental parser.
  *
  * A parser maps a buffer to the frame at its front and the number of bytes it
  * occupies, or to None when the buffer holds no complete frame.  Everything here
  * is about an arbitrary parser; the two wire formats are instances.
  */
module Framing {
  import opened ByteStrings

  /** What std::optional<std::pair<T, size_t>> carries: a value and the bytes it took, or nothing. */
  datatype Parsed<+T> = Incomplete | Parsed(value: T, used: nat)

  type Parser<!T> = Bytes -> Parsed<T>

  datatype Drained<T> = Drained(frames: seq<T>, rest: Bytes)

  /** A parsed frame occupies at least one byte and lies inside the buffer. */
  ghost predicate Progress<T(!new)>(p: Parser<T>) {
    forall b {:trigger p(b)} :: p(b).Parsed? ==> 0 < p(b).used <= |b|
  }

  /** Once a frame has been parsed, bytes that arrive later do not change it. */
  ghost predicate Stable<T(!new)>(p: Parser<T>) {
    forall b, more :: p(b).Parsed? ==> p(b + more) == p(b)
  }

  /** The greedy parse-and-erase loop, as a function of the buffer. */
  ghost function Drain<T(!new)>(p: Parser<T>, b: Bytes): (r: Drained<T>)
    requires Progress(p)
    ensures |r.rest| <= |b|
    ensures p(r.rest).Incomplete? || r.rest == []
    decreases |b|
  {
    if b == [] || p(b).Incomplete? then Drained([], b)
    else
      var Parsed(frame, n) := p(b);
      var d := Drain(p, b[n..]);
      Drained([frame] + d.frames, d.rest)
  }

  lemma DrainStep<T(!new)>(p: Parser<T>, b: Bytes)
    requires Progress(p) && b != [] && p(b).Parsed?
    ensures var d := Drain(p, b[p(b).used..]);
            Drain(p, b) == Drained([p(b).value] + d.frames, d.rest)
  {
  }

  lemma DrainDone<T(!new)>(p: Parser<T>, b: Bytes)
    requires Progress(p) && (b == [] || p(b).Incomplete?)
    ensures Drain(p, b) == Drained([], b)
  {
  }

  /** Draining early does not matter: drain, append, drain again is one drain of the whole. */
  lemma {:induction false} DrainThenAppend<T(!new)>(p: Parser<T>, b: Bytes, more: Bytes)
    requires Progress(p) && Stable(p)
    ensures var first := Drain(p, b);
            var second := Drain(p, first.rest + more);
            Drain(p, b + more) == Drained(first.frames + second.frames, second.rest)
    decreases |b|
  {
    if b == [] || p(b).Incomplete? {
      assert Drain(p, b).frames + Drain(p, b + more).frames == Drain(p, b + more).frames;
    } else {
      var Parsed(frame, n) := p(b);
      assert p(b + more) == p(b);
      assert (b + more)[n..] == b[n..] + more;
      DrainThenAppend(p, b[n..], more);
      var inner := Drain(p, b[n..]);
      var second := Drain(p, inner.rest + more);
      assert [frame] + (inner.frames + second.frames) == ([frame] + inner.frames) + second.frames;
    }
  }

  /** Every drained frame was parsed off some part of the buffer. */
  lemma {:induction false} DrainedCameFrom<T(!new)>(p: Parser<T>, b: Bytes, i: nat) returns (c: Bytes)
    requires Progress(p) && i < |Drain(p, b).frames|
    ensures |c| <= |b| && p(c).Parsed? && p(c).value == Drain(p, b).frames[i]
    decreases |b|
  {
    if i == 0 {
      c := b;
    } else {
      c := DrainedCameFrom(p, b[p(b).used..], i - 1);
    }
  }

  /** No proper prefix of a parsed frame parses. */
  lemma ProperPrefixDoesNotParse<T(!new)>(p: Parser<T>, b: Bytes, k: nat)
    requires Progress(p) && Stable(p)
    requires p(b).Parsed? && k < p(b).used
    ensures p(b[..k]).Incomplete?
  {
    assert b == b[..k] + b[k..];
  }

  function Concat(parts: seq<Bytes>): (r: Bytes)
  {
    if parts == [] then [] else parts[0] + Concat(parts[1..])
  }

  lemma {:induction false} ConcatSnoc(parts: seq<Bytes>, last: Bytes)
    ensures Concat(parts + [last]) == Concat(parts) + last
  {
    if parts == [] {
      assert parts + [last] == [last] && [last][1..] == [];
      assert Concat([last]) == last + Concat([]);
    } else {
      assert (parts + [last])[1..] == parts[1..] + [last];
      ConcatSnoc(parts[1..], last);
    }
  }

  // ----- Streams of well-formed frames -----

  /** `wire` is read back as `frame`, whatever follows it. */
  ghost predicate Encodes<T(!new)>(p: Parser<T>, wire: Bytes, frame: T) {
    && wire != []
    && forall rest :: p(wire + rest) == Parsed(frame, |wire|)
  }

  /** Encodings are prefix-free: two encodings that start one buffer are the same encoding. */
  lemma EncodingsPrefixFree<T(!new)>(p: Parser<T>, w: Bytes, f: T, v: Bytes, g: T)
    requires Encodes(p, w, f) && Encodes(p, v, g) && w <= v
    ensures w == v && f == g
  {
    var rest := v[|w|..];
    assert v == w + rest && v == v + [];
    assert p(v + []) == Parsed(g, |v|);
  }

  ghost predicate AllEncode<T(!new)>(p: Parser<T>, wires: seq<Bytes>, frames: seq<T>) {
    |wires| == |frames| && forall i :: 0 <= i < |wires| ==> Encodes(p, wires[i], frames[i])
  }

  /** An encoding at the front of the buffer is the first frame drained. */
  lemma DrainEncoded<T(!new)>(p: Parser<T>, wire: Bytes, frame: T, rest: Bytes)
    requires Progress(p) && Encodes(p, wire, frame)
    ensures Drain(p, wire + rest).frames == [frame] + Drain(p, rest).frames
    ensures Drain(p, wire + rest).rest == Drain(p, rest).rest
  {
    assert p(wire + rest) == Parsed(frame, |wire|);
    assert (wire + rest)[|wire|..] == rest;
  }

  /** A proper prefix of an encoding stays in the buffer untouched. */
  lemma DrainPartial<T(!new)>(p: Parser<T>, wire: Bytes, frame: T, b: Bytes)
    requires Progress(p) && Stable(p) && Encodes(p, wire, frame) && b < wire
    ensures Drain(p, b) == Drained([], b)
  {
    assert p(wire + []) == Parsed(frame, |wire|) && wire + [] == wire;
    assert b == wire[..|b|];
    ProperPrefixDoesNotParse(p, wire, |b|);
  }

  /** A prefix of a stream of encodings: some whole encodings, then a proper prefix of the next one. */
  ghost predicate CutAt(wires: seq<Bytes>, b: Bytes, done: nat, rest: Bytes) {
    && done <= |wires|
    && b == Concat(wires[..done]) + rest
    && (if done == |wires| then rest == [] else rest < wires[done])
  }

  lemma CutAtStart(wires: seq<Bytes>, b: Bytes)
    requires if wires == [] then b == [] else b < wires[0]
    ensures CutAt(wires, b, 0, b)
  {
    assert Concat(wires[..0]) == [] && [] + b == b;
  }

  lemma CutAtLater(wires: seq<Bytes>, b: Bytes, done: nat, rest: Bytes)
    requires wires != [] && CutAt(wires[1..], b, done, rest)
    ensures CutAt(wires, wires[0] + b, done + 1, rest)
  {
    assert wires[..done + 1][1..] == wires[1..][..done];
    assert wires[0] + (Concat(wires[1..][..done]) + rest) == (wires[0] + Concat(wires[1..][..done])) + rest;
  }

  /**
    * Draining any prefix of a stream of encodings yields a prefix of its frames and
    * leaves a proper prefix of the next encoding (nothing, if there is no next one).
    */
  lemma {:induction false} DrainStreamPrefix<T(!new)>(p: Parser<T>, wires: seq<Bytes>, frames: seq<T>, b: Bytes)
      returns (done: nat)
    requires Progress(p) && Stable(p) && AllEncode(p, wires, frames)
    requires b <= Concat(wires)
    ensures done <= |frames| && Drain(p, b).frames == frames[..done]
    ensures CutAt(wires, b, done, Drain(p, b).rest)
    decreases |wires|
  {
    if wires == [] {
      CutAtStart(wires, b);
      return 0;
    }
    var w := wires[0];
    if |b| < |w| {
      assert b == w[..|b|];
      DrainPartial(p, w, frames[0], b);
      CutAtStart(wires, b);
      return 0;
    }
    var tail := b[|w|..];
    assert b == w + tail && tail <= Concat(wires[1..]);
    done := DrainStreamPrefix(p, wires[1..], frames[1..], tail);
    DrainEncoded(p, w, frames[0], tail);
    CutAtLater(wires, tail, done, Drain(p, tail).rest);
    done := done + 1;
    assert frames[..done] == [frames[0]] + frames[1..][..done - 1];
  }
}
