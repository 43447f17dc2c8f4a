/**
  * Decimal text: what std::to_string writes, what std::stoll and std::stoull read,
  * and how decimal order relates to numeric order.
  */
module Decimal {
  import opened ByteStrings

  const ZERO: byte := 48
  const MINUS: byte := 45
  const PLUS: byte := 43

  predicate IsDigit(b: byte) { 48 <= b <= 57 }

  predicate IsSpace(b: byte) { b == 32 || 9 <= b <= 13 }

  predicate AllDigits(s: Bytes) { forall i :: 0 <= i < |s| ==> IsDigit(s[i]) }

  /** std::to_string of an unsigned number. */
  function Dec(n: nat): (s: Bytes)
    ensures |s| > 0
  {
    if n < 10 then [48 + n] else Dec(n / 10) + [48 + n % 10]
  }

  lemma {:induction false} DecDigits(n: nat)
    ensures AllDigits(Dec(n))
  {
    if n >= 10 { DecDigits(n / 10); }
  }

  /** The number a digit string denotes. */
  function Value(s: Bytes): int
  {
    if s == [] then 0 else Value(s[..|s| - 1]) * 10 + (s[|s| - 1] as int - 48)
  }

  lemma {:induction false} ValueDec(n: nat)
    ensures Value(Dec(n)) == n
  {
    var s := Dec(n);
    if n < 10 {
      assert s[..|s| - 1] == [];
    } else {
      assert s[..|s| - 1] == Dec(n / 10);
      ValueDec(n / 10);
    }
  }

  lemma DecInjective(m: nat, n: nat)
    requires Dec(m) == Dec(n)
    ensures m == n
  {
    ValueDec(m);
    ValueDec(n);
  }

  /** On digit strings of one length, byte order is numeric order. */
  lemma {:induction false} EqualWidthOrder(a: Bytes, b: Bytes)
    requires AllDigits(a) && AllDigits(b) && |a| == |b|
    ensures Less(a, b) <==> Value(a) < Value(b)
    ensures a == b <==> Value(a) == Value(b)
  {
    if a != [] {
      var n := |a| - 1;
      var a', b' := a[..n], b[..n];
      EqualWidthOrder(a', b');
      LessLastByte(a', a[n], b', b[n]);
      assert a == a' + [a[n]] && b == b' + [b[n]];
    }
  }

  lemma DecOrder(m: nat, n: nat)
    requires |Dec(m)| == |Dec(n)|
    ensures Less(Dec(m), Dec(n)) <==> m < n
  {
    DecDigits(m);
    DecDigits(n);
    EqualWidthOrder(Dec(m), Dec(n));
    ValueDec(m);
    ValueDec(n);
  }

  lemma {:induction false} DecLeadingDigit(n: nat)
    ensures n > 0 ==> Dec(n)[0] > ZERO
  {
    if n >= 10 { DecLeadingDigit(n / 10); }
  }

  /** "0" is the least of all decimal strings. */
  lemma ZeroIsLeast(n: nat)
    ensures !Less(Dec(n), Dec(0))
  {
    DecLeadingDigit(n);
    LessIrreflexive(Dec(0));
    assert Dec(0) == [48];
  }

  // ----- Reading -----

  /** First position at or after `i` that is not white space. */
  function SkipSpaces(s: Bytes, i: nat): (j: nat)
    decreases |s| - i
  {
    if i < |s| && IsSpace(s[i]) then SkipSpaces(s, i + 1) else i
  }

  /** First position at or after `i` that is not a digit. */
  function SkipDigits(s: Bytes, i: nat): (j: nat)
    ensures i <= j
    decreases |s| - i
  {
    if i < |s| && IsDigit(s[i]) then SkipDigits(s, i + 1) else i
  }

  /** The number the digits from `i` up to `j` denote. */
  function ValueAt(s: Bytes, i: nat, j: nat): (n: int)
    decreases j
  {
    if j <= i || j > |s| then 0 else ValueAt(s, i, j - 1) * 10 + (s[j - 1] as int - 48)
  }

  datatype Numeral = Numeral(negative: bool, magnitude: int)

  /** White space, an optional sign, then digits; whatever follows the digits is ignored. */
  function ReadNumeral(s: Bytes): Option<Numeral>
  {
    var i := SkipSpaces(s, 0);
    var signed := i < |s| && (s[i] == MINUS || s[i] == PLUS);
    var first := if signed then i + 1 else i;
    var end := SkipDigits(s, first);
    if end == first then None else Some(Numeral(signed && s[i] == MINUS, ValueAt(s, first, end)))
  }

  /** std::stoll: None where it throws (no digits, or outside 64-bit signed range). */
  function Stoll(s: Bytes): (r: Option<int>)
    ensures r.Some? ==> IsInt64(r.value)
  {
    match ReadNumeral(s)
    case None => None
    case Some(Numeral(negative, m)) =>
      var v := if negative then -m else m;
      if IsInt64(v) then Some(v) else None
  }

  /** std::stoull: a minus sign negates modulo 2^64. */
  function Stoull(s: Bytes): (r: Option<nat>)
    ensures r.Some? ==> r.value < U64
  {
    match ReadNumeral(s)
    case None => None
    case Some(Numeral(negative, m)) =>
      if !(0 <= m < U64) then None else if negative && m > 0 then Some(U64 - m) else Some(m)
  }

  predicate IsInt64(n: int) { -0x8000_0000_0000_0000 <= n < 0x8000_0000_0000_0000 }

  /** What an ostream writes for a signed number. */
  function DecInt(n: int): (s: Bytes)
    ensures |s| > 0
  {
    if n < 0 then [MINUS] + Dec(-n) else Dec(n)
  }

  lemma {:induction false} SkipDigitsIs(s: Bytes, i: nat, j: nat)
    requires i <= j <= |s| && AllDigits(s[i..j]) && (j < |s| ==> !IsDigit(s[j]))
    ensures SkipDigits(s, i) == j
    decreases j - i
  {
    if i < j {
      assert IsDigit(s[i..j][0]);
      assert s[i + 1..j] == s[i..j][1..];
      SkipDigitsIs(s, i + 1, j);
    }
  }

  lemma {:induction false} ValueAtIs(s: Bytes, i: nat, j: nat)
    requires i <= j <= |s|
    ensures ValueAt(s, i, j) == Value(s[i..j])
    decreases j
  {
    if i < j {
      assert s[i..j][..j - i - 1] == s[i..j - 1];
      ValueAtIs(s, i, j - 1);
    }
  }

  lemma DigitsWithin(p: Bytes, d: Bytes, rest: Bytes)
    requires d != [] && AllDigits(d) && (rest == [] || !IsDigit(rest[0]))
    ensures var s := p + d + rest;
            var end := |p| + |d|;
            SkipDigits(s, |p|) == end && ValueAt(s, |p|, end) == Value(d) && IsDigit(s[|p|])
  {
    var s := p + d + rest;
    var end := |p| + |d|;
    assert s[|p|..end] == d;
    SkipDigitsIs(s, |p|, end);
    ValueAtIs(s, |p|, end);
    assert s[|p|] == d[0];
  }

  /** The digits of `n` inside a longer string are read as `n`. */
  lemma DigitsAt(p: Bytes, n: nat, rest: Bytes)
    requires rest == [] || !IsDigit(rest[0])
    ensures var s := p + Dec(n) + rest;
            var end := |p| + |Dec(n)|;
            SkipDigits(s, |p|) == end && ValueAt(s, |p|, end) == n && IsDigit(s[|p|])
  {
    DecDigits(n);
    ValueDec(n);
    DigitsWithin(p, Dec(n), rest);
  }

  /** A numeral is read back whatever non-digit follows it. */
  lemma ReadDec(n: nat, rest: Bytes)
    requires rest == [] || !IsDigit(rest[0])
    ensures ReadNumeral(Dec(n) + rest) == Some(Numeral(false, n))
  {
    DigitsAt([], n, rest);
    assert [] + Dec(n) + rest == Dec(n) + rest;
  }

  lemma StollDecInt(n: int)
    requires IsInt64(n)
    ensures Stoll(DecInt(n)) == Some(n)
  {
    if n >= 0 {
      ReadDec(n, []);
      assert Dec(n) + [] == Dec(n);
    } else {
      DigitsAt([MINUS], -n, []);
      assert [MINUS] + Dec(-n) + [] == DecInt(n);
    }
  }

  lemma StoullDec(n: nat, rest: Bytes)
    requires n < U64 && (rest == [] || !IsDigit(rest[0]))
    ensures Stoull(Dec(n) + rest) == Some(n)
  {
    ReadDec(n, rest);
  }

  // ----- A colon ends a numeral -----

  lemma {:induction false} SkipSpacesBefore(x: Bytes, rest: Bytes, i: nat)
    requires i <= |x|
    ensures SkipSpaces(x + [COLON] + rest, i) == SkipSpaces(x, i) <= |x|
    decreases |x| - i
  {
    if i < |x| && IsSpace(x[i]) { SkipSpacesBefore(x, rest, i + 1); }
  }

  lemma {:induction false} SkipDigitsBefore(x: Bytes, rest: Bytes, i: nat)
    requires i <= |x|
    ensures SkipDigits(x + [COLON] + rest, i) == SkipDigits(x, i) <= |x|
    decreases |x| - i
  {
    if i < |x| && IsDigit(x[i]) { SkipDigitsBefore(x, rest, i + 1); }
  }

  lemma {:induction false} ValueAtBefore(x: Bytes, rest: Bytes, i: nat, j: nat)
    requires j <= |x|
    ensures ValueAt(x + [COLON] + rest, i, j) == ValueAt(x, i, j)
    decreases j
  {
    if i < j { ValueAtBefore(x, rest, i, j - 1); }
  }

  /** What stoull reads before a colon does not depend on what follows it. */
  lemma StoullStopsAtColon(x: Bytes, rest: Bytes)
    ensures Stoull(x + [COLON] + rest) == Stoull(x)
  {
    hide SkipSpaces, SkipDigits, ValueAt;
    var s := x + [COLON] + rest;
    SkipSpacesBefore(x, rest, 0);
    var i := SkipSpaces(x, 0);
    assert i < |x| ==> s[i] == x[i];
    assert i == |x| ==> s[i] == COLON;
    var first := if i < |x| && (x[i] == MINUS || x[i] == PLUS) then i + 1 else i;
    SkipDigitsBefore(x, rest, first);
    ValueAtBefore(x, rest, first, SkipDigits(x, first));
  }

  lemma DecHasNoColon(n: nat)
    ensures COLON !in Dec(n)
  {
    DecDigits(n);
  }

  // ----- What is read -----

  predicate AllSpaces(s: Bytes) { forall i :: 0 <= i < |s| ==> s[i] == 32 || 9 <= s[i] <= 13 }

  lemma {:induction false} SkipSpacesIs(s: Bytes, i: nat, j: nat)
    requires i <= j <= |s| && AllSpaces(s[i..j]) && (j < |s| ==> !IsSpace(s[j]))
    ensures SkipSpaces(s, i) == j
    decreases j - i
  {
    if i < j {
      assert s[i..j][0] == s[i];
      assert s[i + 1..j] == s[i..j][1..];
      SkipSpacesIs(s, i + 1, j);
    }
  }

  /** White space, a sign if there is one, and digits up to whatever follows them. */
  lemma NumeralReads(spaces: Bytes, sign: Bytes, digits: Bytes, rest: Bytes)
    requires AllSpaces(spaces) && (sign == [] || sign == [43] || sign == [45])
    requires digits != [] && AllDigits(digits) && (rest == [] || !IsDigit(rest[0]))
    ensures ReadNumeral(spaces + sign + digits + rest) == Some(Numeral(sign == [45], Value(digits)))
  {
    hide SkipSpaces, SkipDigits, ValueAt, Value;
    var s := spaces + sign + digits + rest;
    assert s[..|spaces|] == spaces && s[0..|spaces|] == spaces;
    assert s[|spaces|] == if sign == [] then digits[0] else sign[0];
    SkipSpacesIs(s, 0, |spaces|);
    DigitsWithin(spaces + sign, digits, rest);
  }

  /** Without a digit after the white space and the sign there is no number. */
  lemma NoNumeral(spaces: Bytes, sign: Bytes, rest: Bytes)
    requires AllSpaces(spaces) && (sign == [] || sign == [43] || sign == [45])
    requires rest == [] || !IsDigit(rest[0])
    requires sign == [] ==> rest == [] || (!IsSpace(rest[0]) && rest[0] != 43 && rest[0] != 45)
    ensures ReadNumeral(spaces + sign + rest) == None
  {
    hide SkipSpaces, ValueAt, Value;
    var s := spaces + sign + rest;
    assert s[0..|spaces|] == spaces;
    SkipSpacesIs(s, 0, |spaces|);
  }

  /** stoll and stoull on such a text: the signed number if it fits, the unsigned one modulo 2^64 if its digits fit. */
  lemma IntegersRead(spaces: Bytes, sign: Bytes, digits: Bytes, rest: Bytes)
    requires AllSpaces(spaces) && (sign == [] || sign == [43] || sign == [45])
    requires digits != [] && AllDigits(digits) && (rest == [] || !IsDigit(rest[0]))
    ensures var s, m := spaces + sign + digits + rest, Value(digits);
            var n := if sign == [45] then -m else m;
            && Stoll(s) == (if -0x8000_0000_0000_0000 <= n <= 0x7FFF_FFFF_FFFF_FFFF then Some(n) else None)
            && Stoull(s) == (if m > 0xFFFF_FFFF_FFFF_FFFF then None
                             else if sign == [45] && m > 0 then Some(0x1_0000_0000_0000_0000 - m) else Some(m))
  {
    hide ReadNumeral, Value;
    NumeralReads(spaces, sign, digits, rest);
    ValueNotNegative(digits);
  }

  lemma {:induction false} ValueNotNegative(digits: Bytes)
    requires AllDigits(digits)
    ensures Value(digits) >= 0
    decreases |digits|
  {
    if digits != [] { ValueNotNegative(digits[..|digits| - 1]); }
  }
}
