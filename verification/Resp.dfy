/**
  * The RESP2 codec: values, parsing and serialisation.
  */
module Resp {
  import opened ByteStrings
  import opened Decimal
  import opened Framing

  const MAX_BULK_LEN: nat := 16 * 1024 * 1024
  const MAX_ARRAY_COUNT: nat := 10000

  const SIMPLE: byte := 43   // '+'
  const ERROR: byte := 45    // '-'
  const INTEGER: byte := 58  // ':'
  const BULK: byte := 36     // '$'
  const ARRAY: byte := 42    // '*'

  datatype RespValue =
    | SimpleString(text: Bytes)
    | Error(message: Bytes)
    | Integer(num: int)
    | BulkString(data: Bytes)
    | Array(elems: seq<RespValue>)
    | Null

  // ----- Parsing -----

  /** What the first line of a buffer announces. */
  datatype Header =
    | Bad
    | Whole(value: RespValue, used: nat)
    | Elements(count: nat, used: nat)

  /** The line after the type byte, up to the first CRLF. */
  function Line(b: Bytes): (r: Option<Bytes>)
    ensures r.Some? ==> |r.value| + 3 <= |b|
  {
    match FindCrlf(b, 1)
    case None => None
    case Some(pos) => Some(b[1..pos])
  }

  /** A value that is not an array is complete here; an array still needs its elements. */
  function ReadHeader(b: Bytes): (h: Header)
    ensures !h.Bad? ==> 0 < h.used <= |b|
  {
    match Line(b)
    case None => Bad
    case Some(line) =>
      var after := |line| + 3;
      if b[0] == SIMPLE then Whole(SimpleString(line), after)
      else if b[0] == ERROR then Whole(Error(line), after)
      else if b[0] != INTEGER && b[0] != BULK && b[0] != ARRAY then Bad
      else
        match Stoll(line)
        case None => Bad
        case Some(n) => ReadCounted(b, n, after)
  }

  function ReadCounted(b: Bytes, n: int, after: nat): (h: Header)
    requires 0 < after <= |b|
    ensures !h.Bad? ==> 0 < h.used <= |b|
  {
    if b[0] == INTEGER then Whole(Integer(n), after)
    else if n == -1 then Whole(Null, after)
    else if b[0] == BULK then
      if n < 0 || n > MAX_BULK_LEN || |b| < after + n + 2 then Bad
      else Whole(BulkString(b[after..after + n]), after + n + 2)
    else if n < 0 || n > MAX_ARRAY_COUNT then Bad
    else Elements(n, after)
  }

  function Parse(b: Bytes): (r: Parsed<RespValue>)
    ensures r.Parsed? ==> 0 < r.used <= |b|
    decreases |b|, 0, 0
  {
    match ReadHeader(b)
    case Bad => Incomplete
    case Whole(v, n) => Parsed(v, n)
    case Elements(count, n) =>
      var elems := ParseElems(b[n..], count);
      if elems.Incomplete? then Incomplete else Parsed(Array(elems.value), n + elems.used)
  }

  /** `count` values one after another, with the bytes they take. */
  function ParseElems(b: Bytes, count: nat): (r: Parsed<seq<RespValue>>)
    ensures r.Parsed? ==> r.used <= |b| && |r.value| == count
    decreases |b|, 1, count
  {
    if count == 0 then Parsed([], 0)
    else
      var head := Parse(b);
      if head.Incomplete? then Incomplete
      else Prefixed([head.value], head.used, ParseElems(b[head.used..], count - 1))
  }

  /** Elements already parsed, put in front of the result for the remaining ones. */
  function Prefixed(vs: seq<RespValue>, n: nat, r: Parsed<seq<RespValue>>): Parsed<seq<RespValue>> {
    if r.Incomplete? then Incomplete else Parsed(vs + r.value, n + r.used)
  }

  lemma PrefixedTwice(vs: seq<RespValue>, n: nat, ws: seq<RespValue>, m: nat, r: Parsed<seq<RespValue>>)
    ensures Prefixed(vs, n, Prefixed(ws, m, r)) == Prefixed(vs + ws, n + m, r)
  {
    if r.Parsed? { assert vs + (ws + r.value) == vs + ws + r.value; }
  }

  /** `arr` has been parsed up to `offset`; `left` elements are still to come. */
  ghost predicate Resumes(whole: Parsed<seq<RespValue>>, arr: seq<RespValue>, b: Bytes, offset: nat, left: nat) {
    offset <= |b| && whole == Prefixed(arr, offset, ParseElems(b[offset..], left))
  }

  lemma ResumesAfterElement(whole: Parsed<seq<RespValue>>, arr: seq<RespValue>, b: Bytes, offset: nat, left: nat)
    requires Resumes(whole, arr, b, offset, left) && left > 0 && Parse(b[offset..]).Parsed?
    ensures var Parsed(v, n) := Parse(b[offset..]);
            Resumes(whole, arr + [v], b, offset + n, left - 1)
  {
    hide Parse;
    var Parsed(v, n) := Parse(b[offset..]);
    assert b[offset..][n..] == b[offset + n..];
    PrefixedTwice(arr, offset, [v], n, ParseElems(b[offset + n..], left - 1));
  }

  lemma ResumesAtStart(b: Bytes, count: nat)
    ensures Resumes(ParseElems(b, count), [], b, 0, count)
  {
    assert b[0..] == b;
    var whole := ParseElems(b, count);
    if whole.Parsed? { assert [] + whole.value == whole.value; }
  }

  lemma ResumesAtEnd(whole: Parsed<seq<RespValue>>, arr: seq<RespValue>, b: Bytes, offset: nat)
    requires Resumes(whole, arr, b, offset, 0)
    ensures whole == Parsed(arr, offset)
  {
    assert arr + [] == arr;
  }

  /** The parser as the session runs it: recursion for nesting, a loop over the elements of an array. */
  method ParseBuffer(b: Bytes) returns (r: Parsed<RespValue>)
    ensures r == Parse(b)
    decreases |b|, 0
  {
    var h := ReadHeader(b);
    match h
    case Bad => return Incomplete;
    case Whole(v, n) => return Parsed(v, n);
    case Elements(count, n) =>
      var elems := ParseArrayBody(b[n..], count);
      if elems.Incomplete? { return Incomplete; }
      return Parsed(Array(elems.value), n + elems.used);
  }

  method ParseArrayBody(b: Bytes, count: nat) returns (r: Parsed<seq<RespValue>>)
    ensures r == ParseElems(b, count)
    decreases |b|, 1
  {
    hide Parse;
    var arr: seq<RespValue> := [];
    var offset: nat := 0;
    ghost var whole := ParseElems(b, count);
    ResumesAtStart(b, count);
    for i := 0 to count
      invariant Resumes(whole, arr, b, offset, count - i)
    {
      var elem := ParseBuffer(b[offset..]);
      if elem.Incomplete? { return Incomplete; }
      ResumesAfterElement(whole, arr, b, offset, count - i);
      arr := arr + [elem.value];
      offset := offset + elem.used;
    }
    ResumesAtEnd(whole, arr, b, offset);
    return Parsed(arr, offset);
  }

  // ----- Serialisation -----

  function Serialize(v: RespValue): (r: Bytes)
    ensures |r| > 0
    decreases v, 0
  {
    match v
    case SimpleString(s) => [SIMPLE] + s + CRLF
    case Error(s) => [ERROR] + s + CRLF
    case Integer(n) => [INTEGER] + DecInt(n) + CRLF
    case BulkString(s) => [BULK] + Dec(|s|) + CRLF + s + CRLF
    case Array(vs) => [ARRAY] + Dec(|vs|) + CRLF + SerializeAll(vs)
    case Null => [BULK, MINUS, 49] + CRLF
  }

  function SerializeAll(vs: seq<RespValue>): (r: Bytes)
    decreases vs, 1
  {
    if vs == [] then [] else Serialize(vs[0]) + SerializeAll(vs[1..])
  }

  lemma SerializeAllCons(vs: seq<RespValue>, rest: Bytes)
    requires vs != []
    ensures |SerializeAll(vs)| == |Serialize(vs[0])| + |SerializeAll(vs[1..])|
    ensures SerializeAll(vs) + rest == Serialize(vs[0]) + (SerializeAll(vs[1..]) + rest)
  {
    var head, tail := Serialize(vs[0]), SerializeAll(vs[1..]);
    assert (head + tail) + rest == head + (tail + rest);
  }

  lemma {:induction false} SerializeAllSnoc(vs: seq<RespValue>, v: RespValue)
    ensures SerializeAll(vs + [v]) == SerializeAll(vs) + Serialize(v)
    decreases |vs|
  {
    if vs == [] {
      assert (vs + [v])[1..] == [];
    } else {
      assert (vs + [v])[1..] == vs[1..] + [v];
      SerializeAllSnoc(vs[1..], v);
    }
  }

  /** The serialiser as it runs, appending to an output stream. */
  method Write(v: RespValue) returns (out: Bytes)
    ensures out == Serialize(v)
    decreases v
  {
    match v
    case SimpleString(s) => out := [SIMPLE] + s + CRLF;
    case Error(s) => out := [ERROR] + s + CRLF;
    case Integer(n) => out := [INTEGER] + DecInt(n) + CRLF;
    case BulkString(s) => out := [BULK] + Dec(|s|) + CRLF + s + CRLF;
    case Null => out := [BULK, MINUS, 49] + CRLF;
    case Array(vs) =>
      out := [ARRAY] + Dec(|vs|) + CRLF;
      ghost var head := out;
      for i := 0 to |vs|
        invariant out == head + SerializeAll(vs[..i])
      {
        var e := Write(vs[i]);
        SerializeAllSnoc(vs[..i], vs[i]);
        assert vs[..i + 1] == vs[..i] + [vs[i]];
        out := out + e;
      }
      assert vs[..|vs|] == vs;
  }

  /** A command: an array of bulk strings. */
  method MakeArray(strings: seq<Bytes>) returns (v: RespValue)
    ensures v.Array? && |v.elems| == |strings|
    ensures forall i :: 0 <= i < |strings| ==> v.elems[i] == BulkString(strings[i])
  {
    var arr: seq<RespValue> := [];
    for i := 0 to |strings|
      invariant |arr| == i
      invariant forall k :: 0 <= k < i ==> arr[k] == BulkString(strings[k])
    {
      arr := arr + [BulkString(strings[i])];
    }
    v := Array(arr);
  }

  // ----- Limits -----

  /** What the wire format can carry. */
  ghost predicate WithinLimits(v: RespValue)
    decreases v
  {
    match v
    case SimpleString(s) => !HasCrlf(s)
    case Error(s) => !HasCrlf(s)
    case Integer(n) => IsInt64(n)
    case BulkString(s) => |s| <= 16777216
    case Array(vs) => |vs| <= 10000 && forall i :: 0 <= i < |vs| ==> WithinLimits(vs[i])
    case Null => true
  }

  lemma LineHasNoCrlf(b: Bytes)
    requires Line(b).Some?
    ensures !HasCrlf(Line(b).value)
  {
    FindCrlfSpec(b, 1);
    var line := Line(b).value;
    forall i ensures !IsCrlfAt(line, i) {
      if IsCrlfAt(line, i) { assert IsCrlfAt(b, i + 1); }
    }
  }

  lemma HeaderWithinLimits(b: Bytes)
    ensures ReadHeader(b).Whole? ==> WithinLimits(ReadHeader(b).value)
    ensures ReadHeader(b).Elements? ==> ReadHeader(b).count <= MAX_ARRAY_COUNT
  {
    if Line(b).Some? { LineHasNoCrlf(b); }
  }

  /** Every value the parser returns is within the limits. */
  lemma {:induction false} ParsedWithinLimits(b: Bytes)
    requires Parse(b).Parsed?
    ensures WithinLimits(Parse(b).value)
    decreases |b|, 0, 0
  {
    HeaderWithinLimits(b);
    var h := ReadHeader(b);
    if h.Elements? { ParsedElemsWithinLimits(b[h.used..], h.count); }
  }

  lemma {:induction false} ParsedElemsWithinLimits(b: Bytes, count: nat)
    requires ParseElems(b, count).Parsed?
    ensures forall i :: 0 <= i < count ==> WithinLimits(ParseElems(b, count).value[i])
    decreases |b|, 1, count
  {
    hide Parse, WithinLimits;
    if count > 0 {
      ParsedWithinLimits(b);
      ParsedElemsWithinLimits(b[Parse(b).used..], count - 1);
    }
  }

  // ----- Prefix stability -----

  lemma HeaderStable(b: Bytes, more: Bytes)
    requires !ReadHeader(b).Bad?
    ensures ReadHeader(b + more) == ReadHeader(b)
  {
    FindCrlfStable(b, 1, more);
    var pos := FindCrlf(b, 1).value;
    assert (b + more)[1..pos] == b[1..pos];
    var h := ReadHeader(b);
    if h.Whole? && h.value.BulkString? {
      var after, n := pos + 2, Stoll(b[1..pos]).value;
      assert (b + more)[after..after + n] == b[after..after + n];
    }
  }

  /** Once a value has been parsed, bytes that arrive later do not change it. */
  lemma {:induction false} ParseStable(b: Bytes, more: Bytes)
    requires Parse(b).Parsed?
    ensures Parse(b + more) == Parse(b)
    decreases |b|, 0, 0
  {
    hide ReadHeader, ParseElems;
    HeaderStable(b, more);
    var h := ReadHeader(b);
    if h.Elements? {
      assert (b + more)[h.used..] == b[h.used..] + more;
      ParseElemsStable(b[h.used..], h.count, more);
    }
  }

  lemma {:induction false} ParseElemsStable(b: Bytes, count: nat, more: Bytes)
    requires ParseElems(b, count).Parsed?
    ensures ParseElems(b + more, count) == ParseElems(b, count)
    decreases |b|, 1, count
  {
    hide Parse;
    if count > 0 {
      ParseStable(b, more);
      var n := Parse(b).used;
      assert (b + more)[n..] == b[n..] + more;
      ParseElemsStable(b[n..], count - 1, more);
    }
  }

  // ----- Round trip -----

  /** A line followed by CRLF is read back, provided it holds no CRLF itself. */
  lemma LineOf(t: byte, s: Bytes, rest: Bytes)
    requires !HasCrlf(s)
    ensures Line([t] + s + CRLF + rest) == Some(s)
  {
    var b := [t] + s + CRLF + rest;
    var pos := |s| + 1;
    assert IsCrlfAt(b, pos);
    forall i | 1 <= i < pos ensures !IsCrlfAt(b, i) {
      assert !IsCrlfAt(s, i - 1);
    }
    FindCrlfIs(b, 1, pos);
    assert b[1..pos] == s;
  }

  lemma DecHasNoCrlf(n: int)
    ensures !HasCrlf(DecInt(n))
  {
    DecDigits(if n < 0 then -n else n);
  }

  lemma NumberLine(t: byte, n: int, rest: Bytes)
    requires IsInt64(n)
    ensures Line([t] + DecInt(n) + CRLF + rest) == Some(DecInt(n))
    ensures Stoll(DecInt(n)) == Some(n)
  {
    DecHasNoCrlf(n);
    LineOf(t, DecInt(n), rest);
    StollDecInt(n);
  }

  lemma HeaderOfText(t: byte, s: Bytes, rest: Bytes)
    requires (t == SIMPLE || t == ERROR) && !HasCrlf(s)
    ensures ReadHeader([t] + s + CRLF + rest) == Whole(if t == SIMPLE then SimpleString(s) else Error(s), |s| + 3)
  {
    LineOf(t, s, rest);
  }

  /** A number line leaves the body that follows it to be read. */
  lemma HeaderOfNumber(t: byte, n: int, body: Bytes)
    requires IsInt64(n) && (t == INTEGER || t == BULK || t == ARRAY)
    ensures var b := [t] + DecInt(n) + CRLF + body;
            var after := |DecInt(n)| + 3;
            && b[0] == t && after <= |b| && b[after..] == body
            && ReadHeader(b) == ReadCounted(b, n, after)
  {
    NumberLine(t, n, body);
  }

  lemma HeaderOfBulk(s: Bytes, rest: Bytes)
    requires |s| <= MAX_BULK_LEN
    ensures ReadHeader(Serialize(BulkString(s)) + rest) == Whole(BulkString(s), |Serialize(BulkString(s))|)
  {
    hide DecInt, Dec, Stoll;
    NonNegativeDec(|s|);
    var tail := s + CRLF + rest;
    var b := [BULK] + DecInt(|s|) + CRLF + tail;
    assert Serialize(BulkString(s)) + rest == b;
    HeaderOfNumber(BULK, |s|, tail);
    var after := |DecInt(|s|)| + 3;
    assert b[after..after + |s|] == b[after..][..|s|] == s;
  }

  lemma HeaderOfScalar(v: RespValue, rest: Bytes)
    requires WithinLimits(v) && !v.Array?
    ensures ReadHeader(Serialize(v) + rest) == Whole(v, |Serialize(v)|)
  {
    match v
    case SimpleString(s) => HeaderOfText(SIMPLE, s, rest);
    case Error(s) => HeaderOfText(ERROR, s, rest);
    case Integer(n) => HeaderOfNumber(INTEGER, n, rest);
    case BulkString(s) => HeaderOfBulk(s, rest);
    case Null =>
      assert Dec(1) == [49];
      assert DecInt(-1) == [MINUS, 49];
      assert Serialize(v) + rest == [BULK] + DecInt(-1) + CRLF + rest;
      HeaderOfNumber(BULK, -1, rest);
  }

  lemma HeaderOfArray(vs: seq<RespValue>, rest: Bytes)
    requires |vs| <= MAX_ARRAY_COUNT
    ensures var b := Serialize(Array(vs)) + rest;
            var used := |Dec(|vs|)| + 3;
            used <= |b| && ReadHeader(b) == Elements(|vs|, used) && b[used..] == SerializeAll(vs) + rest
  {
    var tail := SerializeAll(vs) + rest;
    assert Serialize(Array(vs)) + rest == [ARRAY] + DecInt(|vs|) + CRLF + tail;
    HeaderOfNumber(ARRAY, |vs|, tail);
  }

  lemma {:induction false} ParseSerialized(v: RespValue, rest: Bytes)
    requires WithinLimits(v)
    ensures Parse(Serialize(v) + rest) == Parsed(v, |Serialize(v)|)
    decreases v, 0
  {
    if v.Array? {
      HeaderOfArray(v.elems, rest);
      ParseSerializedAll(v.elems, rest);
    } else {
      HeaderOfScalar(v, rest);
    }
  }

  lemma ParseElemsCons(v: RespValue, head: Bytes, vs: seq<RespValue>, tail: Bytes, m: nat)
    requires Parse(head + tail) == Parsed(v, |head|) && ParseElems(tail, |vs|) == Parsed(vs, m)
    ensures ParseElems(head + tail, |vs| + 1) == Parsed([v] + vs, |head| + m)
  {
    assert (head + tail)[|head|..] == tail;
  }

  lemma {:induction false} ParseSerializedAll(vs: seq<RespValue>, rest: Bytes)
    requires forall i :: 0 <= i < |vs| ==> WithinLimits(vs[i])
    ensures ParseElems(SerializeAll(vs) + rest, |vs|) == Parsed(vs, |SerializeAll(vs)|)
    decreases vs, 1
  {
    if vs != [] {
      var head := Serialize(vs[0]);
      var tail := SerializeAll(vs[1..]) + rest;
      var m := |SerializeAll(vs[1..])|;
      assert vs == [vs[0]] + vs[1..];
      assert ParseElems(head + tail, |vs|) == Parsed(vs, |head| + m) by {
        ParseSerialized(vs[0], tail);
        ParseSerializedAll(vs[1..], rest);
        ParseElemsCons(vs[0], head, vs[1..], tail, m);
      }
      SerializeAllCons(vs, rest);
    }
  }

  /** The round trip holds for exactly the values within the limits. */
  lemma RoundTrip(v: RespValue, rest: Bytes)
    ensures Parse(Serialize(v) + rest) == Parsed(v, |Serialize(v)|) <==> WithinLimits(v)
  {
    if WithinLimits(v) {
      ParseSerialized(v, rest);
    } else if Parse(Serialize(v) + rest) == Parsed(v, |Serialize(v)|) {
      ParsedWithinLimits(Serialize(v) + rest);
      assert false;
    }
  }

  /** The codec is a parser in the sense of Framing. */
  lemma IsStableParser()
    ensures Progress(Parse) && Stable(Parse)
  {
    forall b: Bytes, more: Bytes | Parse(b).Parsed? ensures Parse(b + more) == Parse(b) {
      ParseStable(b, more);
    }
  }

  lemma SerializedEncodes(v: RespValue)
    requires WithinLimits(v)
    ensures Encodes(Parse, Serialize(v), v)
  {
    forall rest: Bytes ensures Parse(Serialize(v) + rest) == Parsed(v, |Serialize(v)|) {
      ParseSerialized(v, rest);
    }
  }

  // ----- When serialising inverts parsing -----

  /** The first line of a parsed value is the one the serialiser would write, and a bulk string ends in CRLF. */
  predicate TidyHead(b: Bytes) {
    ReadHeader(b).Bad? || b[0] == SIMPLE || b[0] == ERROR || TidyNumber(b, Line(b).value)
  }

  predicate TidyNumber(b: Bytes, line: Bytes)
    requires b != []
  {
    match Stoll(line)
    case None => false
    case Some(n) =>
      var after := |line| + 3;
      && line == DecInt(n)
      && (b[0] == BULK && n >= 0 ==> after + n + 2 <= |b| && b[after + n..after + n + 2] == CRLF)
      && (b[0] == ARRAY ==> n >= 0)
  }

  predicate Tidy(b: Bytes)
    decreases |b|, 0, 0
  {
    var h := ReadHeader(b);
    TidyHead(b) && (h.Elements? ==> TidyElems(b[h.used..], h.count))
  }

  predicate TidyElems(b: Bytes, count: nat)
    decreases |b|, 1, count
  {
    count == 0 || (Tidy(b) && (Parse(b).Parsed? ==> TidyElems(b[Parse(b).used..], count - 1)))
  }

  lemma LineSplits(b: Bytes)
    requires Line(b).Some?
    ensures var line := Line(b).value;
            b == [b[0]] + line + CRLF + b[|line| + 3..]
  {
    FindCrlfSpec(b, 1);
  }

  /** A buffer that starts with a number line has that line. */
  lemma LineIs(b: Bytes, t: byte, n: int, tail: Bytes)
    requires IsInt64(n) && b == [t] + DecInt(n) + CRLF + tail
    ensures Line(b) == Some(DecInt(n)) && Stoll(DecInt(n)) == Some(n) && b[|DecInt(n)| + 3..] == tail
  {
    NumberLine(t, n, tail);
  }

  lemma InvertText(b: Bytes)
    requires ReadHeader(b).Whole? && (b[0] == SIMPLE || b[0] == ERROR)
    ensures Serialize(ReadHeader(b).value) == b[..ReadHeader(b).used]
  {
    LineSplits(b);
  }

  lemma InvertNumber(b: Bytes)
    requires ReadHeader(b).Whole? && b[0] == INTEGER
    ensures Serialize(ReadHeader(b).value) == b[..ReadHeader(b).used] <==> TidyHead(b)
  {
    hide DecInt, Stoll;
    LineSplits(b);
    var h := ReadHeader(b);
    var n := h.value.num;
    if Serialize(h.value) == b[..h.used] {
      assert b == [INTEGER] + DecInt(n) + CRLF + b[h.used..] by { assert b == b[..h.used] + b[h.used..]; }
      LineIs(b, INTEGER, n, b[h.used..]);
    }
  }

  lemma InvertNull(b: Bytes)
    requires ReadHeader(b).Whole? && (b[0] == BULK || b[0] == ARRAY) && Stoll(Line(b).value) == Some(-1)
    ensures Serialize(ReadHeader(b).value) == b[..ReadHeader(b).used] <==> TidyHead(b)
  {
    hide Stoll;
    LineSplits(b);
    var h := ReadHeader(b);
    assert Dec(1) == [49];
    assert DecInt(-1) == [MINUS, 49];
    assert Serialize(Null) == [BULK] + DecInt(-1) + CRLF;
    if Serialize(h.value) == b[..h.used] {
      assert b == [BULK] + DecInt(-1) + CRLF + b[h.used..] by { assert b == b[..h.used] + b[h.used..]; }
      LineIs(b, BULK, -1, b[h.used..]);
    }
  }

  /** A bulk string is its line and its data, and two bytes the parser does not look at. */
  lemma BulkSplits(b: Bytes)
    requires ReadHeader(b).Whole? && b[0] == BULK && ReadHeader(b).value.BulkString?
    ensures var h := ReadHeader(b);
            var line := Line(b).value;
            var end := |line| + 3 + |h.value.data|;
            && h.used == end + 2
            && b[..h.used] == [BULK] + line + CRLF + (h.value.data + b[end..h.used])
  {
    hide DecInt, Dec, Stoll;
    LineSplits(b);
    var h := ReadHeader(b);
    var line := Line(b).value;
    var after, n := |line| + 3, |h.value.data|;
    assert b[after..h.used] == b[after..after + n] + b[after + n..after + n + 2];
    assert b[..h.used] == b[..after] + b[after..h.used];
    assert b[..after] == [BULK] + line + CRLF;
  }

  lemma InvertedBulkIsTidy(b: Bytes)
    requires ReadHeader(b).Whole? && b[0] == BULK && ReadHeader(b).value.BulkString?
    requires Serialize(ReadHeader(b).value) == b[..ReadHeader(b).used]
    ensures TidyHead(b)
  {
    hide DecInt, Dec, Stoll;
    BulkSplits(b);
    var h := ReadHeader(b);
    var n := |h.value.data|;
    NonNegativeDec(n);
    var tail := h.value.data + CRLF + b[h.used..];
    assert b == [BULK] + DecInt(n) + CRLF + tail by { assert b == b[..h.used] + b[h.used..]; }
    LineIs(b, BULK, n, tail);
    var after := |DecInt(n)| + 3;
    assert b[after + n..after + n + 2] == tail[n..n + 2] == CRLF;
  }

  lemma InvertBulk(b: Bytes)
    requires ReadHeader(b).Whole? && b[0] == BULK && ReadHeader(b).value.BulkString?
    ensures Serialize(ReadHeader(b).value) == b[..ReadHeader(b).used] <==> TidyHead(b)
  {
    hide DecInt, Dec, Stoll;
    BulkSplits(b);
    var h := ReadHeader(b);
    NonNegativeDec(|h.value.data|);
    assert Serialize(h.value) == [BULK] + DecInt(|h.value.data|) + CRLF + (h.value.data + CRLF);
    if Serialize(h.value) == b[..h.used] { InvertedBulkIsTidy(b); }
  }

  lemma NonNegativeDec(n: nat)
    ensures DecInt(n) == Dec(n)
  {
  }

  lemma InvertWhole(b: Bytes)
    requires ReadHeader(b).Whole?
    ensures Serialize(ReadHeader(b).value) == b[..ReadHeader(b).used] <==> TidyHead(b)
  {
    if b[0] == SIMPLE || b[0] == ERROR {
      InvertText(b);
    } else if b[0] == INTEGER {
      InvertNumber(b);
    } else if Stoll(Line(b).value) == Some(-1) {
      InvertNull(b);
    } else {
      InvertBulk(b);
    }
  }

  lemma ElementsHead(b: Bytes)
    requires ReadHeader(b).Elements?
    ensures var h := ReadHeader(b);
            && b[0] == ARRAY && Line(b).Some? && h.used == |Line(b).value| + 3 && IsInt64(h.count)
            && (TidyHead(b) <==> Line(b).value == DecInt(h.count))
  {
  }

  /** An array is written as it was read when its count line and its body are. */
  lemma InvertArrayHead(b: Bytes, vs: seq<RespValue>, n: nat)
    requires var h := ReadHeader(b); h.Elements? && h.count == |vs| && h.used + n <= |b|
    ensures Serialize(Array(vs)) == b[..ReadHeader(b).used + n]
            <==> TidyHead(b) && SerializeAll(vs) == b[ReadHeader(b).used..ReadHeader(b).used + n]
  {
    hide DecInt, Dec, Stoll, SerializeAll, ReadHeader, TidyHead, Line;
    ElementsHead(b);
    LineSplits(b);
    var h := ReadHeader(b);
    var line := Line(b).value;
    NonNegativeDec(|vs|);
    var body := b[h.used..h.used + n];
    assert Serialize(Array(vs)) == [ARRAY] + DecInt(|vs|) + CRLF + SerializeAll(vs);
    assert b[..h.used + n] == [ARRAY] + line + CRLF + body by {
      assert b[..h.used] == [ARRAY] + line + CRLF;
      assert b[..h.used + n] == b[..h.used] + body;
    }
    if Serialize(Array(vs)) == b[..h.used + n] {
      var tail := SerializeAll(vs) + b[h.used + n..];
      assert b == [ARRAY] + DecInt(|vs|) + CRLF + tail by { assert b == b[..h.used + n] + b[h.used + n..]; }
      LineIs(b, ARRAY, |vs|, tail);
      assert |SerializeAll(vs)| == n;
      assert body == tail[..n];
    }
  }

  /**
    * For every buffer that parses, nested arrays included: serialising the parsed value gives
    * back the bytes it was parsed from if and only if the buffer is tidy.
    */
  lemma {:induction false} SerializeInvertsParseIff(b: Bytes)
    requires Parse(b).Parsed?
    ensures Serialize(Parse(b).value) == b[..Parse(b).used] <==> Tidy(b)
    decreases |b|, 0, 0
  {
    hide TidyHead, Serialize, SerializeAll, ReadHeader;
    var h := ReadHeader(b);
    if h.Whole? {
      InvertWhole(b);
    } else {
      var elems := ParseElems(b[h.used..], h.count);
      InvertElems(b[h.used..], h.count);
      InvertArrayHead(b, elems.value, elems.used);
      assert b[h.used..][..elems.used] == b[h.used..h.used + elems.used];
    }
  }

  lemma {:induction false} InvertElems(b: Bytes, count: nat)
    requires ParseElems(b, count).Parsed?
    ensures var r := ParseElems(b, count);
            SerializeAll(r.value) == b[..r.used] <==> TidyElems(b, count)
    decreases |b|, 1, count
  {
    hide Serialize, ReadHeader, Parse, Tidy;
    if count > 0 {
      var Parsed(v, n) := Parse(b);
      var rest := ParseElems(b[n..], count - 1);
      var whole := ParseElems(b, count);
      assert whole == Parsed([v] + rest.value, n + rest.used);
      SerializeInvertsParseIff(b);
      InvertElems(b[n..], count - 1);
      ParsedWithinLimits(b);
      SerializeAllCons(whole.value, []);
      assert whole.value[1..] == rest.value;
      JoinInverts(b, v, n, SerializeAll(rest.value), rest.used);
      assert b[n..][..rest.used] == b[n..n + rest.used];
      assert SerializeAll(whole.value) + [] == SerializeAll(whole.value);
      assert SerializeAll(rest.value) + [] == SerializeAll(rest.value);
    }
  }

  /** A first value and what follows are written as they were read when both are. */
  lemma JoinInverts(b: Bytes, v: RespValue, n: nat, tail: Bytes, m: nat)
    requires Parse(b) == Parsed(v, n) && WithinLimits(v) && n + m <= |b|
    ensures Serialize(v) + tail == b[..n + m] <==> Serialize(v) == b[..n] && tail == b[n..n + m]
  {
    hide Parse, Serialize, WithinLimits;
    assert b[..n + m] == b[..n] + b[n..n + m];
    if Serialize(v) + tail == b[..n + m] {
      assert b == Serialize(v) + (tail + b[n + m..]) by { assert b == b[..n + m] + b[n + m..]; }
      ParseSerialized(v, tail + b[n + m..]);
      assert |Serialize(v)| == n;
      assert Serialize(v) == (Serialize(v) + tail)[..n] && tail == (Serialize(v) + tail)[n..];
    }
  }

  /** A bulk string's two trailing bytes are skipped unread, so there are buffers that are not tidy. */
  lemma UntidyBulk()
    ensures var b := [BULK, 48, 13, 10, 65, 65];
            Parse(b) == Parsed(BulkString([]), 6) && !Tidy(b)
  {
    var b: Bytes := [BULK, 48, 13, 10, 65, 65];
    assert b == [BULK] + DecInt(0) + CRLF + [65, 65];
    HeaderOfNumber(BULK, 0, [65, 65]);
    assert |DecInt(0)| == 1;
    assert b[4..4] == [];
    SerializeInvertsParseIff(b);
    assert Serialize(BulkString([]))[4] == 13;
  }

  // ----- The format, line by line -----

  /** A line that starts with + or - is a text. */
  lemma TextLines(line: Bytes, rest: Bytes)
    requires !HasCrlf(line)
    ensures Parse([43] + line + [13, 10] + rest) == Parsed(SimpleString(line), |line| + 3)
    ensures Parse([45] + line + [13, 10] + rest) == Parsed(Error(line), |line| + 3)
  {
    LineOf(43, line, rest);
    LineOf(45, line, rest);
  }

  /** A line that starts with : is a number, whatever stoll makes of it. */
  lemma NumberLines(line: Bytes, rest: Bytes)
    requires !HasCrlf(line)
    ensures Parse([58] + line + [13, 10] + rest) ==
            match Stoll(line) case None => Incomplete case Some(n) => Parsed(Integer(n), |line| + 3)
  {
    hide Stoll;
    LineOf(58, line, rest);
  }

  /** A line that starts with $ announces a bulk string, of at most 16 MiB, and two bytes after it. */
  lemma BulkLines(line: Bytes, rest: Bytes)
    requires !HasCrlf(line)
    ensures var b := [36] + line + [13, 10] + rest;
            Parse(b) ==
            match Stoll(line)
            case None => Incomplete
            case Some(n) =>
              if n == -1 then Parsed(Null, |line| + 3)
              else if 0 <= n <= 16777216 && |line| + n + 5 <= |b| then Parsed(BulkString(b[|line| + 3..|line| + 3 + n]), |line| + n + 5)
              else Incomplete
  {
    hide Stoll, Line, Parse, HasCrlf;
    LineOf(36, line, rest);
    var b := [36] + line + [13, 10] + rest;
    assert b[0] == 36;
    BulkAfter(b, line);
  }

  lemma BulkAfter(b: Bytes, line: Bytes)
    requires Line(b) == Some(line) && b[0] == 36
    ensures Parse(b) ==
            match Stoll(line)
            case None => Incomplete
            case Some(n) =>
              if n == -1 then Parsed(Null, |line| + 3)
              else if 0 <= n <= 16777216 && |line| + n + 5 <= |b| then Parsed(BulkString(b[|line| + 3..|line| + 3 + n]), |line| + n + 5)
              else Incomplete
  {
    hide Stoll, Line, ReadHeader, ReadCounted, ParseElems;
    BulkHeader(b, line);
    if Stoll(line).Some? { BulkCounted(b, Stoll(line).value, |line| + 3); }
  }

  lemma BulkHeader(b: Bytes, line: Bytes)
    requires Line(b) == Some(line) && b[0] == 36
    ensures 0 < |line| + 3 <= |b|
    ensures ReadHeader(b) == match Stoll(line) case None => Bad case Some(n) => ReadCounted(b, n, |line| + 3)
  {
    hide Stoll, Line, ReadCounted;
  }

  lemma BulkCounted(b: Bytes, n: int, after: nat)
    requires 0 < after <= |b| && b[0] == 36
    ensures ReadCounted(b, n, after) ==
            if n == -1 then Whole(Null, after)
            else if 0 <= n <= 16777216 && after + n + 2 <= |b| then Whole(BulkString(b[after..after + n]), after + n + 2)
            else Bad
  {
  }

  /** A line that starts with * announces an array, of at most 10000 values, which then follow one another. */
  lemma ArrayLines(line: Bytes, rest: Bytes)
    requires !HasCrlf(line)
    ensures Parse([42] + line + [13, 10] + rest) ==
            match Stoll(line)
            case None => Incomplete
            case Some(n) =>
              if n == -1 then Parsed(Null, |line| + 3)
              else if 0 <= n <= 10000 && ParseElems(rest, n).Parsed?
              then Parsed(Array(ParseElems(rest, n).value), |line| + 3 + ParseElems(rest, n).used)
              else Incomplete
  {
    hide Stoll, ParseElems;
    LineOf(42, line, rest);
    assert ([42] + line + [13, 10] + rest)[|line| + 3..] == rest;
  }

  /** Anything else, and anything without a line end after its first byte, is not parsed. */
  lemma OtherLines(b: Bytes)
    requires b == [] || b[0] !in {43, 45, 58, 36, 42} || forall i :: i >= 1 ==> !IsCrlfAt(b, i)
    ensures Parse(b).Incomplete?
  {
    FindCrlfSpec(b, 1);
  }
}
