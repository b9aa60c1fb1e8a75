/** UTF-8, as `unescape(encodeURIComponent(s))` produces it in the browser and
    `buf.toString()` reads it in Node.  A byte that does not start a
    well-formed sequence decodes to U+FFFD and decoding resumes at the next
    byte. */
module Utf8 {
  import opened Octets

  const Replacement: char := '\U{FFFD}'

  const Delimiter: char := '|'
  const DelimiterByte: byte := 0x7C

  predicate IsContinuation(b: byte) {
    0x80 <= b < 0xC0
  }

  /** The one to four bytes of one scalar value. */
  function EncodeChar(c: char): (b: Bytes)
    ensures 1 <= |b| <= 4
    ensures |b| == 1 <==> c as int < 0x80
    ensures |b| == 1 ==> b[0] == c as int
    ensures |b| > 1 ==> forall i :: 0 <= i < |b| ==> b[i] >= 0x80
  {
    var v := c as int;
    if v < 0x80 then [v]
    else if v < 0x800 then [0xC0 + v / 64, 0x80 + v % 64]
    else if v < 0x10000 then [0xE0 + v / 4096, 0x80 + (v / 64) % 64, 0x80 + v % 64]
    else [0xF0 + v / 262144, 0x80 + (v / 4096) % 64, 0x80 + (v / 64) % 64, 0x80 + v % 64]
  }

  /** The bytes of a string: one to four per character, and the delimiter
      byte exactly where the string has the delimiter. */
  function Encode(s: string): (b: Bytes)
    ensures |s| <= |b| <= 4 * |s|
    ensures Delimiter in s <==> DelimiterByte in b
  {
    if |s| == 0 then []
    else
      var h := EncodeChar(s[0]);
      var t := Encode(s[1..]);
      assert DelimiterByte in h <==> s[0] == Delimiter;
      assert Delimiter in s <==> s[0] == Delimiter || Delimiter in s[1..] by {
        assert s == [s[0]] + s[1..];
      }
      h + t
  }

  /** The value of a two-, three- or four-byte sequence. */
  function Value2(b0: byte, b1: byte): int { (b0 - 0xC0) * 64 + (b1 - 0x80) }
  function Value3(b0: byte, b1: byte, b2: byte): int { (b0 - 0xE0) * 4096 + (b1 - 0x80) * 64 + (b2 - 0x80) }
  function Value4(b0: byte, b1: byte, b2: byte, b3: byte): int
  {
    (b0 - 0xF0) * 262144 + (b1 - 0x80) * 4096 + (b2 - 0x80) * 64 + (b3 - 0x80)
  }

  predicate Lead2(b: Bytes) {
    |b| >= 2 && 0xC2 <= b[0] < 0xE0 && IsContinuation(b[1])
  }

  predicate Lead3(b: Bytes) {
    && |b| >= 3 && 0xE0 <= b[0] < 0xF0 && IsContinuation(b[1]) && IsContinuation(b[2])
    && var v := Value3(b[0], b[1], b[2]); 0x800 <= v && !(0xD800 <= v < 0xE000)
  }

  predicate Lead4(b: Bytes) {
    && |b| >= 4 && 0xF0 <= b[0] < 0xF5
    && IsContinuation(b[1]) && IsContinuation(b[2]) && IsContinuation(b[3])
    && 0x10000 <= Value4(b[0], b[1], b[2], b[3]) < 0x110000
  }

  /** The first character of `b` and the number of bytes it takes.  Only an
      ASCII byte decodes to an ASCII character; every byte after the first
      one consumed is a continuation byte. */
  function DecodeStep(b: Bytes): (r: (char, nat))
    requires |b| > 0
    ensures 1 <= r.1 <= |b|
    ensures r.0 as int < 0x80 <==> b[0] < 0x80
    ensures b[0] < 0x80 ==> r == (b[0] as char, 1)
    ensures forall i :: 1 <= i < r.1 ==> IsContinuation(b[i])
  {
    if b[0] < 0x80 then (b[0] as char, 1)
    else if Lead2(b) then (Value2(b[0], b[1]) as char, 2)
    else if Lead3(b) then (Value3(b[0], b[1], b[2]) as char, 3)
    else if Lead4(b) then (Value4(b[0], b[1], b[2], b[3]) as char, 4)
    else (Replacement, 1)
  }

  function Decode(b: Bytes): (s: string)
    ensures |s| <= |b|
    ensures |s| == 0 <==> |b| == 0
    decreases |b|
  {
    if |b| == 0 then [] else var (c, n) := DecodeStep(b); [c] + Decode(b[n..])
  }

  lemma Split3(v: int)
    requires 0 <= v
    ensures (v / 4096) * 4096 + ((v / 64) % 64) * 64 + v % 64 == v
  {
    assert v / 4096 == (v / 64) / 64;
  }

  lemma Split4(v: int)
    requires 0 <= v
    ensures (v / 262144) * 262144 + ((v / 4096) % 64) * 4096 + ((v / 64) % 64) * 64 + v % 64 == v
  {
    assert v / 262144 == (v / 4096) / 64;
    Split3(v);
  }

  /** Decoding the bytes of one character, whatever follows, yields that
      character and consumes exactly its bytes. */
  lemma DecodeStepEncodeChar(c: char, rest: Bytes)
    ensures DecodeStep(EncodeChar(c) + rest) == (c, |EncodeChar(c)|)
  {
    var v := c as int;
    var b := EncodeChar(c) + rest;
    if v < 0x80 {
    } else if v < 0x800 {
      assert Lead2(b);
      assert Value2(b[0], b[1]) == v;
    } else if v < 0x10000 {
      Split3(v);
      assert !Lead2(b);
      assert Value3(b[0], b[1], b[2]) == v;
      assert Lead3(b);
    } else {
      Split4(v);
      assert !Lead2(b) && !Lead3(b);
      assert Value4(b[0], b[1], b[2], b[3]) == v;
      assert Lead4(b);
    }
  }

  /** Decoding inverts encoding, for every string. */
  lemma {:induction false} DecodeEncode(s: string)
    ensures Decode(Encode(s)) == s
  {
    if |s| > 0 {
      var e := EncodeChar(s[0]);
      DecodeStepEncodeChar(s[0], Encode(s[1..]));
      assert (e + Encode(s[1..]))[|e|..] == Encode(s[1..]);
      DecodeEncode(s[1..]);
    }
  }

  /** The decoded text contains the delimiter exactly when the bytes contain
      its code 0x7C, whether or not the bytes are well-formed UTF-8. */
  lemma {:induction false} DelimiterInDecode(b: Bytes)
    ensures Delimiter in Decode(b) <==> DelimiterByte in b
    decreases |b|
  {
    if |b| > 0 {
      var (c, n) := DecodeStep(b);
      DelimiterInDecode(b[n..]);
      assert Decode(b) == [c] + Decode(b[n..]);
      assert b == b[..n] + b[n..];
      assert c == Delimiter <==> b[0] == DelimiterByte;
      DelimiterOnlyFirst(b, n);
    }
  }

  /** A decoding step's continuation bytes are never the delimiter byte. */
  lemma DelimiterOnlyFirst(b: Bytes, n: nat)
    requires 1 <= n <= |b|
    requires forall i :: 1 <= i < n ==> IsContinuation(b[i])
    ensures DelimiterByte in b[..n] <==> b[0] == DelimiterByte
  {
    forall i | 1 <= i < n ensures b[..n][i] != DelimiterByte {
      assert IsContinuation(b[i]);
    }
    assert b[..n][0] == b[0];
  }
}
