/** Hexadecimal text (section 8 of RFC 4648, lower-case on output), as Node's
    `buf.toString('hex')` writes it and `Buffer.from(s, 'hex')` reads it. */
module Hex {
  import opened Octets
  import opened Results

  predicate IsLowerHexChar(c: char) {
    '0' <= c <= '9' || 'a' <= c <= 'f'
  }

  /** Even-length text of lower-case hex digits: what `Encode` produces. */
  predicate IsLowerHex(s: string) {
    |s| % 2 == 0 && forall i :: 0 <= i < |s| ==> IsLowerHexChar(s[i])
  }

  function DigitChar(n: int): (c: char)
    requires 0 <= n < 16
    ensures IsLowerHexChar(c)
  {
    if n < 10 then ('0' as int + n) as char else ('a' as int + n - 10) as char
  }

  /** The value of one hex digit; both cases are accepted. */
  function DigitValue(c: char): (v: Option<int>)
    ensures v.Some? ==> 0 <= v.value < 16
  {
    if '0' <= c <= '9' then Some(c as int - '0' as int)
    else if 'a' <= c <= 'f' then Some(c as int - 'a' as int + 10)
    else if 'A' <= c <= 'F' then Some(c as int - 'A' as int + 10)
    else None
  }

  lemma DigitValueOfDigitChar(n: int)
    requires 0 <= n < 16
    ensures DigitValue(DigitChar(n)) == Some(n)
  {
  }

  lemma DigitCharOfDigitValue(c: char)
    requires IsLowerHexChar(c)
    ensures DigitValue(c).Some? && DigitChar(DigitValue(c).value) == c
  {
  }

  /** `buf.toString('hex')`: two lower-case digits per byte, high nibble first. */
  function Encode(b: Bytes): (s: string)
    ensures |s| == 2 * |b|
    ensures IsLowerHex(s)
  {
    if |b| == 0 then [] else [DigitChar(b[0] / 16), DigitChar(b[0] % 16)] + Encode(b[1..])
  }

  /** The byte the digit pair at pair position `i` denotes, if both are
      hex digits. */
  function PairValue(s: string, i: nat): (v: Option<int>)
    requires 2 * i + 1 < |s|
  {
    match (DigitValue(s[2 * i]), DigitValue(s[2 * i + 1]))
    case (Some(hi), Some(lo)) => Some(hi * 16 + lo)
    case _ => None
  }

  /** `Buffer.from(s, 'hex')`: bytes are read two digits at a time from the
      start, and reading stops at the first pair that is not two hex digits
      (an odd trailing digit is dropped).  Each byte is the value of its
      pair, and a shorter result means the next pair is not hex. */
  function Decode(s: string): (b: Bytes)
    ensures |b| <= |s| / 2
    ensures forall i :: 0 <= i < |b| ==> PairValue(s, i) == Some(b[i] as int)
    ensures |b| < |s| / 2 ==> PairValue(s, |b|).None?
  {
    if |s| < 2 then []
    else match (DigitValue(s[0]), DigitValue(s[1]))
      case (Some(hi), Some(lo)) =>
        var t := Decode(s[2..]);
        PrependPair(s, hi * 16 + lo, t);
        [hi * 16 + lo] + t
      case _ => []
  }

  /** A decoded pair in front of the decoding of the rest keeps the
      properties `Decode` promises. */
  lemma PrependPair(s: string, x: byte, t: Bytes)
    requires |s| >= 2 && PairValue(s, 0) == Some(x as int)
    requires |t| <= |s[2..]| / 2
    requires forall i :: 0 <= i < |t| ==> PairValue(s[2..], i) == Some(t[i] as int)
    requires |t| < |s[2..]| / 2 ==> PairValue(s[2..], |t|).None?
    ensures |[x] + t| <= |s| / 2
    ensures forall i :: 0 <= i < |[x] + t| ==> PairValue(s, i) == Some(([x] + t)[i] as int)
    ensures |[x] + t| < |s| / 2 ==> PairValue(s, |[x] + t|).None?
  {
    assert (|s| - 2) / 2 == |s| / 2 - 1;
    forall i | 1 <= i <= |t| && 2 * i + 1 < |s|
      ensures PairValue(s, i) == PairValue(s[2..], i - 1)
    {
      assert s[2..][2 * (i - 1)] == s[2 * i] && s[2..][2 * (i - 1) + 1] == s[2 * i + 1];
    }
  }

  /** Decoding inverts encoding. */
  lemma {:induction false} DecodeEncode(b: Bytes)
    ensures Decode(Encode(b)) == b
  {
    if |b| > 0 {
      var s := Encode(b);
      DigitValueOfDigitChar(b[0] / 16);
      DigitValueOfDigitChar(b[0] % 16);
      assert s[2..] == Encode(b[1..]);
      DecodeEncode(b[1..]);
    }
  }

  lemma LowerHexTail(s: string)
    requires |s| >= 2 && IsLowerHex(s)
    ensures IsLowerHexChar(s[0]) && IsLowerHexChar(s[1]) && IsLowerHex(s[2..])
  {
    forall i | 0 <= i < |s[2..]| ensures IsLowerHexChar(s[2..][i]) {
      assert s[2..][i] == s[i + 2];
    }
  }

  /** One step of the inverse: a leading digit pair in front of a tail that
      already round-trips. */
  lemma EncodeDecodeStep(s: string)
    requires |s| >= 2 && IsLowerHexChar(s[0]) && IsLowerHexChar(s[1])
    requires Encode(Decode(s[2..])) == s[2..]
    ensures Encode(Decode(s)) == s
  {
    ConsRoundTrip(s);
    FirstTwo(s);
  }

  lemma ConsRoundTrip(s: string)
    requires |s| >= 2 && IsLowerHexChar(s[0]) && IsLowerHexChar(s[1])
    ensures Encode(Decode(s)) == [s[0], s[1]] + Encode(Decode(s[2..]))
  {
    var x := PairRoundTrip(s[0], s[1]);
    var t := Decode(s[2..]);
    DecodeCons(s, x);
    EncodeCons(x, t, s[0], s[1]);
  }

  /** The byte two lower-case digits denote is written back as those
      digits. */
  lemma PairRoundTrip(c0: char, c1: char) returns (x: byte)
    requires IsLowerHexChar(c0) && IsLowerHexChar(c1)
    ensures DigitValue(c0).Some? && DigitValue(c1).Some?
    ensures x as int == DigitValue(c0).value * 16 + DigitValue(c1).value
    ensures DigitChar(x / 16) == c0 && DigitChar(x % 16) == c1
  {
    DigitCharOfDigitValue(c0);
    DigitCharOfDigitValue(c1);
    var hi := DigitValue(c0).value;
    var lo := DigitValue(c1).value;
    x := hi * 16 + lo;
    assert x / 16 == hi && x % 16 == lo;
  }

  lemma FirstTwo(s: string)
    requires |s| >= 2
    ensures s == [s[0], s[1]] + s[2..]
  {
  }

  lemma DecodeCons(s: string, x: byte)
    requires |s| >= 2 && DigitValue(s[0]).Some? && DigitValue(s[1]).Some?
    requires x as int == DigitValue(s[0]).value * 16 + DigitValue(s[1]).value
    ensures Decode(s) == [x] + Decode(s[2..])
  {
  }

  lemma EncodeCons(x: byte, t: Bytes, c0: char, c1: char)
    requires DigitChar(x / 16) == c0 && DigitChar(x % 16) == c1
    ensures Encode([x] + t) == [c0, c1] + Encode(t)
  {
    assert ([x] + t)[1..] == t;
  }

  /** Encoding inverts decoding on well-formed lower-case hex, which therefore
      decodes to exactly half as many bytes as it has digits. */
  lemma {:induction false} EncodeDecode(s: string)
    requires IsLowerHex(s)
    ensures |Decode(s)| == |s| / 2
    ensures Encode(Decode(s)) == s
    decreases |s|
  {
    if |s| >= 2 {
      LowerHexTail(s);
      EncodeDecode(s[2..]);
      EncodeDecodeStep(s);
    }
  }

  /** Hex text never contains the development-mode delimiter. */
  lemma NoDelimiter(s: string)
    requires IsLowerHex(s)
    ensures '|' !in s
  {
  }
}
