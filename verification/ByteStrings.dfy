/**
  * Byte strings, their lexicographic order (the key order of the store), and the
  * search operations the parsers use.
  */
module ByteStrings {

  type byte = x: int | 0 <= x < 256

  type Bytes = seq<byte>

  datatype Option<+T> = None | Some(value: T)

  const U32: int := 0x1_0000_0000
  const U64: int := 0x1_0000_0000_0000_0000

  /** Unsigned 64-bit addition, wrapping around. */
  function Add64(m: nat, n: nat): (r: nat)
    ensures m < U64 && n < U64 ==> r < U64
  {
    if m + n < U64 then m + n else m + n - U64
  }

  const CR: byte := 13
  const LF: byte := 10
  const COLON: byte := 58
  const CRLF: Bytes := [13, 10]

  /** The bytes of a printable ASCII text; anything else would become a question mark. */
  function Ascii(text: string): (r: Bytes)
    ensures |r| == |text| && forall i :: 0 <= i < |r| ==> 32 <= r[i] <= 126
  {
    if text == [] then [] else [if ' ' <= text[0] <= '~' then text[0] as int else 63] + Ascii(text[1..])
  }

  lemma {:induction false} AsciiAt(text: string, i: nat)
    requires i < |text| && ' ' <= text[i] <= '~'
    ensures Ascii(text)[i] == text[i] as int
    decreases |text|
  {
    if i > 0 { AsciiAt(text[1..], i - 1); }
  }

  // ----- Lexicographic order -----

  /** Byte-wise comparison, a proper prefix being smaller. */
  predicate Less(a: Bytes, b: Bytes)
    decreases |a|
  {
    b != [] && (a == [] || a[0] < b[0] || (a[0] == b[0] && Less(a[1..], b[1..])))
  }

  lemma {:induction false} LessIrreflexive(a: Bytes)
    ensures !Less(a, a)
    decreases |a|
  {
    if a != [] { LessIrreflexive(a[1..]); }
  }

  lemma {:induction false} LessTransitive(a: Bytes, b: Bytes, c: Bytes)
    requires Less(a, b) && Less(b, c)
    ensures Less(a, c)
    decreases |a|
  {
    if a != [] && a[0] == b[0] == c[0] { LessTransitive(a[1..], b[1..], c[1..]); }
  }

  lemma {:induction false} LessTotal(a: Bytes, b: Bytes)
    ensures Less(a, b) || a == b || Less(b, a)
    ensures !(Less(a, b) && Less(b, a))
    decreases |a|
  {
    if a != [] && b != [] && a[0] == b[0] {
      LessTotal(a[1..], b[1..]);
      assert a == [a[0]] + a[1..] && b == [b[0]] + b[1..];
    }
  }

  lemma {:induction false} LessCommonPrefix(p: Bytes, a: Bytes, b: Bytes)
    ensures Less(p + a, p + b) <==> Less(a, b)
    decreases |p|
  {
    if p == [] {
      assert p + a == a && p + b == b;
    } else {
      assert (p + a)[1..] == p[1..] + a && (p + b)[1..] == p[1..] + b;
      LessCommonPrefix(p[1..], a, b);
    }
  }

  /** Comparing two strings of one length is decided by the last byte only when the rest is equal. */
  lemma {:induction false} LessLastByte(a: Bytes, x: byte, b: Bytes, y: byte)
    requires |a| == |b|
    ensures Less(a + [x], b + [y]) <==> Less(a, b) || (a == b && x < y)
    decreases |a|
  {
    if a != [] {
      assert (a + [x])[1..] == a[1..] + [x] && (b + [y])[1..] == b[1..] + [y];
      LessLastByte(a[1..], x, b[1..], y);
      assert a == [a[0]] + a[1..] && b == [b[0]] + b[1..];
    }
  }

  lemma {:induction false} PrefixNotLess(p: Bytes, k: Bytes)
    requires p <= k
    ensures !Less(k, p)
    decreases |p|
  {
    if p != [] { PrefixNotLess(p[1..], k[1..]); }
  }

  /** The keys with a given prefix are contiguous: past the first key at or after `p` without it, none has it. */
  lemma {:induction false} PrefixRangeContiguous(p: Bytes, j: Bytes, k: Bytes)
    requires !Less(j, p) && !(p <= j) && !Less(k, j)
    ensures !(p <= k)
    decreases |p|
  {
    if p <= k && p != [] {
      assert j != [];
      if j[0] == p[0] {
        assert p == [p[0]] + p[1..] && j == [j[0]] + j[1..];
        PrefixRangeContiguous(p[1..], j[1..], k[1..]);
      }
    }
  }

  // ----- Searching -----

  /** Position of the first occurrence of `c`, or the length when there is none. */
  function Find(s: Bytes, c: byte): (i: nat)
    ensures i <= |s|
  {
    if s == [] || s[0] == c then 0 else 1 + Find(s[1..], c)
  }

  lemma {:induction false} FindSpec(s: Bytes, c: byte)
    ensures c !in s[..Find(s, c)]
    ensures Find(s, c) < |s| ==> s[Find(s, c)] == c
  {
    if s != [] && s[0] != c {
      FindSpec(s[1..], c);
      assert s[..Find(s, c)] == [s[0]] + s[1..][..Find(s[1..], c)];
    }
  }

  /** The first occurrence is characterised by what precedes it. */
  lemma {:induction false} FindAfter(p: Bytes, c: byte, rest: Bytes)
    requires c !in p
    ensures Find(p + [c] + rest, c) == |p|
  {
    if p != [] {
      assert (p + [c] + rest)[1..] == p[1..] + [c] + rest;
      FindAfter(p[1..], c, rest);
    }
  }

  /** Position of the last occurrence of `c`, if any. */
  function FindLast(s: Bytes, c: byte): (r: Option<nat>)
    ensures r.Some? ==> r.value < |s|
  {
    if s == [] then None
    else if s[|s| - 1] == c then Some(|s| - 1)
    else FindLast(s[..|s| - 1], c)
  }

  /** The last occurrence is characterised by what follows it. */
  lemma {:induction false} FindLastBefore(p: Bytes, c: byte, rest: Bytes)
    requires c !in rest
    ensures FindLast(p + [c] + rest, c) == Some(|p|)
    decreases |rest|
  {
    var s := p + [c] + rest;
    if rest != [] {
      var init := rest[..|rest| - 1];
      assert s[|s| - 1] == rest[|rest| - 1] && s[..|s| - 1] == p + [c] + init;
      FindLastBefore(p, c, init);
    }
  }

  predicate IsCrlfAt(s: Bytes, i: int) {
    0 <= i && i + 1 < |s| && s[i] == CR && s[i + 1] == LF
  }

  ghost predicate HasCrlf(s: Bytes) {
    exists i :: IsCrlfAt(s, i)
  }

  /** Position of the first CRLF at or after `start`. */
  function FindCrlf(s: Bytes, start: nat): (r: Option<nat>)
    ensures r.Some? ==> start <= r.value && r.value + 1 < |s|
    decreases |s| - start
  {
    if start + 1 >= |s| then None
    else if IsCrlfAt(s, start) then Some(start)
    else FindCrlf(s, start + 1)
  }

  lemma {:induction false} FindCrlfSpec(s: Bytes, start: nat)
    ensures var r := FindCrlf(s, start);
            if r.None? then forall i :: start <= i ==> !IsCrlfAt(s, i)
            else IsCrlfAt(s, r.value) && forall i :: start <= i < r.value ==> !IsCrlfAt(s, i)
    decreases |s| - start
  {
    if start + 1 < |s| { FindCrlfSpec(s, start + 1); }
  }

  /** The first CRLF is characterised by its position. */
  lemma FindCrlfIs(s: Bytes, start: nat, pos: nat)
    requires start <= pos && IsCrlfAt(s, pos)
    requires forall i :: start <= i < pos ==> !IsCrlfAt(s, i)
    ensures FindCrlf(s, start) == Some(pos)
  {
    FindCrlfSpec(s, start);
  }

  /** Bytes that arrive later do not move the first CRLF. */
  lemma FindCrlfStable(s: Bytes, start: nat, more: Bytes)
    requires FindCrlf(s, start).Some?
    ensures FindCrlf(s + more, start) == FindCrlf(s, start)
  {
    FindCrlfSpec(s, start);
    var pos := FindCrlf(s, start).value;
    assert IsCrlfAt(s + more, pos);
    forall i | start <= i < pos ensures !IsCrlfAt(s + more, i) {
      assert !IsCrlfAt(s, i);
    }
    FindCrlfIs(s + more, start, pos);
  }

  // ----- Big-endian integers -----

  /** `width` bytes of `n`, most significant first; higher bytes of `n` are dropped. */
  function BigEndian(n: nat, width: nat): (r: Bytes)
    ensures |r| == width
  {
    if width == 0 then [] else BigEndian(n / 256, width - 1) + [n % 256]
  }

  function FromBigEndian(s: Bytes): (n: nat)
  {
    if s == [] then 0 else FromBigEndian(s[..|s| - 1]) * 256 + s[|s| - 1]
  }

  function Pow256(width: nat): (r: nat)
    ensures r > 0
  {
    if width == 0 then 1 else 256 * Pow256(width - 1)
  }

  lemma {:induction false} BigEndianRoundTrip(n: nat, width: nat)
    requires n < Pow256(width)
    ensures FromBigEndian(BigEndian(n, width)) == n
  {
    if width > 0 {
      assert n / 256 < Pow256(width - 1);
      BigEndianRoundTrip(n / 256, width - 1);
      var s := BigEndian(n, width);
      assert s[..|s| - 1] == BigEndian(n / 256, width - 1);
    }
  }

  lemma {:induction false} FromBigEndianRoundTrip(s: Bytes)
    ensures FromBigEndian(s) < Pow256(|s|)
    ensures BigEndian(FromBigEndian(s), |s|) == s
  {
    if s != [] {
      FromBigEndianRoundTrip(s[..|s| - 1]);
      assert s == s[..|s| - 1] + [s[|s| - 1]];
      var q := FromBigEndian(s[..|s| - 1]);
      assert FromBigEndian(s) / 256 == q && FromBigEndian(s) % 256 == s[|s| - 1];
    }
  }

  lemma Widths()
    ensures Pow256(2) == 65536 && Pow256(4) == U32 && Pow256(8) == U64
  {
    assert Pow256(2) == 256 * Pow256(1) == 65536;
    assert Pow256(4) == 256 * Pow256(3) == 256 * 256 * Pow256(2);
    assert Pow256(8) == 256 * Pow256(7) == 65536 * Pow256(6) == 65536 * 256 * Pow256(5) == 65536 * 65536 * Pow256(4);
  }

  /**
    * Most significant first: among byte strings of one length the byte order is the order of the
    * numbers.  With the two round trips this leaves no other way of writing numbers in bytes.
    */
  lemma {:induction false} BigEndianOrder(a: Bytes, b: Bytes)
    requires |a| == |b|
    ensures Less(a, b) <==> FromBigEndian(a) < FromBigEndian(b)
    decreases |a|
  {
    if a != [] {
      var n := |a| - 1;
      BigEndianOrder(a[..n], b[..n]);
      BigEndianOrder(b[..n], a[..n]);
      LessLastByte(a[..n], a[n], b[..n], b[n]);
      LessTotal(a[..n], b[..n]);
      assert a == a[..n] + [a[n]] && b == b[..n] + [b[n]];
    }
  }
}
