/** Base64 (section 4 of RFC 4648, standard alphabet, `=` padding), as the
    browser's `btoa` writes it and Node's `Buffer.from(s, 'base64')` reads
    well-formed input. */
module Base64 {
  import opened Octets
  import opened Results

  /** The character for a 6-bit value. */
  function Char(n: int): (c: char)
    requires 0 <= n < 64
    ensures c != '=' && c != '|'
  {
    if n < 26 then ('A' as int + n) as char
    else if n < 52 then ('a' as int + n - 26) as char
    else if n < 62 then ('0' as int + n - 52) as char
    else if n == 62 then '+'
    else '/'
  }

  /** The 6-bit value of an alphabet character. */
  function Index(c: char): (v: Option<int>)
    ensures v.Some? ==> 0 <= v.value < 64
  {
    if 'A' <= c <= 'Z' then Some(c as int - 'A' as int)
    else if 'a' <= c <= 'z' then Some(c as int - 'a' as int + 26)
    else if '0' <= c <= '9' then Some(c as int - '0' as int + 52)
    else if c == '+' then Some(62)
    else if c == '/' then Some(63)
    else None
  }

  lemma IndexOfChar(n: int)
    requires 0 <= n < 64
    ensures Index(Char(n)) == Some(n)
  {
  }

  /** Three bytes as four characters. */
  function Quad(x: byte, y: byte, z: byte): string
  {
    [Char(x / 4), Char((x % 4) * 16 + y / 16), Char((y % 16) * 4 + z / 64), Char(z % 64)]
  }

  /** Encoding: every three bytes become four characters; a final group of
      one or two bytes is padded with `=` to four characters. */
  function Encode(b: Bytes): (s: string)
    ensures |s| == 4 * ((|b| + 2) / 3)
    ensures '|' !in s
  {
    if |b| == 0 then []
    else if |b| == 1 then Quad(b[0], 0, 0)[..2] + "=="
    else if |b| == 2 then Quad(b[0], b[1], 0)[..3] + "="
    else
      StartedGroups(|b|);
      Quad(b[0], b[1], b[2]) + Encode(b[3..])
  }

  /** Dropping three bytes leaves one started group fewer. */
  lemma StartedGroups(n: int)
    requires n >= 3
    ensures (n - 3 + 2) / 3 == (n + 2) / 3 - 1
  {
  }

  /** Three bytes from four 6-bit values. */
  function Bytes3(a: int, b: int, c: int, d: int): Bytes
    requires 0 <= a < 64 && 0 <= b < 64 && 0 <= c < 64 && 0 <= d < 64
  {
    [a * 4 + b / 16, (b % 16) * 16 + c / 4, (c % 4) * 64 + d]
  }

  /** A group of four characters without padding. */
  function DecodeQuad(s: string): (r: Option<Bytes>)
    requires |s| == 4
    ensures r.Some? ==> |r.value| == 3
  {
    match (Index(s[0]), Index(s[1]), Index(s[2]), Index(s[3]))
    case (Some(a), Some(b), Some(c), Some(d)) => Some(Bytes3(a, b, c, d))
    case _ => None
  }

  /** The last group of four characters, which may end in one or two `=`;
      the padded positions count as zero bits and their bytes are dropped. */
  function DecodeFinal(s: string): (r: Option<Bytes>)
    requires |s| == 4
    ensures r.Some? ==> 1 <= |r.value| <= 3
  {
    if s[2] == '=' && s[3] == '=' then
      match DecodeQuad(s[..2] + "AA")
      case Some(t) => Some(t[..1])
      case None => None
    else if s[3] == '=' then
      match DecodeQuad(s[..3] + "A")
      case Some(t) => Some(t[..2])
      case None => None
    else DecodeQuad(s)
  }

  /** Decoding of well-formed text: a multiple of four alphabet characters,
      padding only at the very end.  Anything else is `None`. */
  function Decode(s: string): (r: Option<Bytes>)
    ensures r.Some? ==> |s| % 4 == 0
    ensures r.Some? ==> 3 * (|s| / 4) - 2 <= |r.value| <= 3 * (|s| / 4)
    decreases |s|
  {
    if |s| == 0 then Some([])
    else if |s| < 4 then None
    else if |s| == 4 then DecodeFinal(s)
    else
      GroupCount(|s|);
      match (DecodeQuad(s[..4]), Decode(s[4..]))
      case (Some(h), Some(t)) => Some(h + t)
      case _ => None
  }

  /** Dropping one group of four leaves one group fewer and the same
      remainder. */
  lemma GroupCount(n: int)
    requires n >= 4
    ensures (n - 4) / 4 == n / 4 - 1 && (n - 4) % 4 == n % 4
  {
  }

  lemma DecodeQuadOfQuad(x: byte, y: byte, z: byte)
    ensures DecodeQuad(Quad(x, y, z)) == Some([x, y, z])
  {
    IndexOfChar(x / 4);
    IndexOfChar((x % 4) * 16 + y / 16);
    IndexOfChar((y % 16) * 4 + z / 64);
    IndexOfChar(z % 64);
    var b := (x % 4) * 16 + y / 16;
    var c := (y % 16) * 4 + z / 64;
    assert b / 16 == x % 4 && b % 16 == y / 16;
    assert c / 4 == y % 16 && c % 4 == z / 64;
  }

  lemma DecodeEncodeOne(b: Bytes)
    requires |b| == 1
    ensures Decode(Encode(b)) == Some(b)
  {
    var t := OneGroup(b);
    DecodeFromPadTwo(Quad(b[0], 0, 0), Encode(b), t);
  }

  /** The facts about the group of a single byte that its decoding needs. */
  lemma OneGroup(b: Bytes) returns (t: Bytes)
    requires |b| == 1
    ensures var q := Quad(b[0], 0, 0);
      && |q| == 4 && q[2] == 'A' && q[3] == 'A' && Encode(b) == q[..2] + "=="
      && DecodeQuad(q) == Some(t) && t[..1] == b
  {
    t := [b[0], 0, 0];
    DecodeQuadOfQuad(b[0], 0, 0);
  }

  /** A group whose last two characters were zero decodes, after `==`
      padding replaced them, to its first byte. */
  lemma DecodeFromPadTwo(q: string, s: string, t: Bytes)
    requires |q| == 4 && q[2] == 'A' && q[3] == 'A' && s == q[..2] + "=="
    requires DecodeQuad(q) == Some(t)
    ensures Decode(s) == Some(t[..1])
  {
    PadTwo(q, s);
    DecodePadTwo(s, t);
  }

  lemma DecodeEncodeTwo(b: Bytes)
    requires |b| == 2
    ensures Decode(Encode(b)) == Some(b)
  {
    var q := Quad(b[0], b[1], 0);
    assert q[2] != '=' && q[3] == 'A';
    var s := Encode(b);
    assert s == q[..3] + "=";
    PadOne(q, s);
    DecodeQuadOfQuad(b[0], b[1], 0);
    DecodePadOne(s, [b[0], b[1], 0]);
    assert [b[0], b[1], 0][..2] == b;
  }

  /** Restoring the two zero characters that `==` padding replaced. */
  lemma PadTwo(q: string, s: string)
    requires |q| == 4 && q[2] == 'A' && q[3] == 'A' && s == q[..2] + "=="
    ensures |s| == 4 && s[2] == '=' && s[3] == '=' && s[..2] + "AA" == q
  {
  }

  /** Restoring the zero character that `=` padding replaced. */
  lemma PadOne(q: string, s: string)
    requires |q| == 4 && q[2] != '=' && q[3] == 'A' && s == q[..3] + "="
    ensures |s| == 4 && s[2] != '=' && s[3] == '=' && s[..3] + "A" == q
  {
    assert s[2] == q[2];
  }

  lemma DecodePadTwo(s: string, t: Bytes)
    requires |s| == 4 && s[2] == '=' && s[3] == '='
    requires DecodeQuad(s[..2] + "AA") == Some(t)
    ensures Decode(s) == Some(t[..1])
  {
  }

  lemma DecodePadOne(s: string, t: Bytes)
    requires |s| == 4 && s[2] != '=' && s[3] == '='
    requires DecodeQuad(s[..3] + "A") == Some(t)
    ensures Decode(s) == Some(t[..2])
  {
  }

  lemma DecodeEncodeThree(b: Bytes)
    requires |b| == 3
    ensures Decode(Encode(b)) == Some(b)
  {
    var s := Encode(b);
    assert s == Quad(b[0], b[1], b[2]);
    assert s[3] != '=';
    DecodeQuadOfQuad(b[0], b[1], b[2]);
    assert b == [b[0], b[1], b[2]];
  }

  lemma DecodeConcat(q: string, t: string, tail: Bytes)
    requires |q| == 4 && |t| >= 4
    requires DecodeQuad(q).Some? && Decode(t) == Some(tail)
    ensures Decode(q + t) == Some(DecodeQuad(q).value + tail)
  {
    var s := q + t;
    assert s[..4] == q && s[4..] == t;
  }

  lemma FirstThree(b: Bytes)
    requires |b| >= 3
    ensures b == [b[0], b[1], b[2]] + b[3..]
  {
    assert b[..3] == [b[0], b[1], b[2]];
    assert b == b[..3] + b[3..];
  }

  /** One step of the round trip: a full group in front of a decodable
      rest. */
  lemma DecodeEncodeStep(b: Bytes)
    requires |b| > 3 && Decode(Encode(b[3..])) == Some(b[3..])
    ensures Decode(Encode(b)) == Some(b)
  {
    FirstThree(b);
    var q := Quad(b[0], b[1], b[2]);
    assert Encode(b) == q + Encode(b[3..]);
    DecodeQuadOfQuad(b[0], b[1], b[2]);
    DecodeConcat(q, Encode(b[3..]), b[3..]);
  }

  /** Decoding inverts encoding, for every byte sequence. */
  lemma {:induction false} DecodeEncode(b: Bytes)
    ensures Decode(Encode(b)) == Some(b)
    decreases |b|
  {
    if |b| == 1 {
      DecodeEncodeOne(b);
    } else if |b| == 2 {
      DecodeEncodeTwo(b);
    } else if |b| == 3 {
      DecodeEncodeThree(b);
    } else if |b| > 3 {
      DecodeEncode(b[3..]);
      DecodeEncodeStep(b);
    }
  }
}
