/** The few JavaScript string operations the protocol relies on, on strings
    as sequences of Unicode scalar values. */
module Text {

  /** `sub` occurs somewhere in `s`. */
  ghost predicate Occurs(s: string, sub: string) {
    exists i :: 0 <= i <= |s| - |sub| && sub <= s[i..]
  }

  /** `s.includes(sub)`: tries each start position in turn. */
  function Includes(s: string, sub: string): (b: bool)
    ensures b <==> Occurs(s, sub)
    decreases |s|
  {
    if |s| < |sub| then false
    else if sub <= s then
      assert s[0..] == s;
      true
    else
      OccursLater(s, sub);
      Includes(s[1..], sub)
  }

  /** When `sub` does not start `s`, it occurs in `s` exactly when it occurs
      in the rest. */
  lemma OccursLater(s: string, sub: string)
    requires |s| > 0 && !(sub <= s)
    ensures Occurs(s, sub) <==> Occurs(s[1..], sub)
  {
    if Occurs(s[1..], sub) {
      var i :| 0 <= i <= |s[1..]| - |sub| && sub <= s[1..][i..];
      assert s[1..][i..] == s[i + 1..];
    }
    if Occurs(s, sub) {
      var i :| 0 <= i <= |s| - |sub| && sub <= s[i..];
      assert i != 0;
      assert s[1..][i - 1..] == s[i..];
    }
  }

  /** Position of the first occurrence of `c` in `s`. */
  function IndexOf(s: string, c: char): (i: nat)
    requires c in s
    ensures i < |s| && s[i] == c && c !in s[..i]
  {
    if s[0] == c then 0 else 1 + IndexOf(s[1..], c)
  }

  /** `parts.join(sep)` for a one-character separator. */
  function Join(parts: seq<string>, sep: char): string
    requires |parts| >= 1
  {
    if |parts| == 1 then parts[0] else parts[0] + [sep] + Join(parts[1..], sep)
  }

  /** `s.split(sep)` for a one-character separator: the maximal pieces of `s`
      between occurrences of `sep`.  There is always at least one piece; the
      pieces contain no separator and joining them restores `s`. */
  function Split(s: string, sep: char): (parts: seq<string>)
    ensures |parts| >= 1
    ensures forall i :: 0 <= i < |parts| ==> sep !in parts[i]
    ensures Join(parts, sep) == s
    decreases |s|
  {
    if sep !in s then [s]
    else
      var i := IndexOf(s, sep);
      assert s == s[..i] + [sep] + s[i + 1..];
      [s[..i]] + Split(s[i + 1..], sep)
  }

  /** The first piece of a split is the text before the first separator, or
      the whole text when there is none. */
  lemma {:induction false} SplitHead(s: string, sep: char)
    ensures sep in s ==> Split(s, sep)[0] == s[..IndexOf(s, sep)]
    ensures sep !in s ==> Split(s, sep)[0] == s
  {
  }

  /** Splitting text that consists of a separator-free head, the separator and
      anything else yields that head first. */
  lemma SplitOfJoined(head: string, sep: char, tail: string)
    requires sep !in head
    ensures Split(head + [sep] + tail, sep)[0] == head
  {
    var s := head + [sep] + tail;
    assert s[|head|] == sep;
    assert s[..IndexOf(s, sep)] == head;
    SplitHead(s, sep);
  }

  /** `s.substring(0, n)` */
  function Take(s: string, n: nat): (r: string)
    ensures |r| == if n < |s| then n else |s|
    ensures r <= s
  {
    if n < |s| then s[..n] else s
  }

  /** The decimal digits of a natural number, as `Number.prototype.toString`
      writes them. */
  function Decimal(n: nat): (r: string)
    ensures |r| >= 1
    ensures forall i :: 0 <= i < |r| ==> '0' <= r[i] <= '9'
  {
    if n < 10 then [Digit(n)] else Decimal(n / 10) + [Digit(n % 10)]
  }

  function Digit(d: nat): (c: char)
    requires d < 10
    ensures '0' <= c <= '9'
  {
    (('0' as int) + d) as char
  }
}
