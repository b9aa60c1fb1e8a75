/** PEM text kept in environment variables with its line breaks written as
    the two characters backslash and `n`.  The setup script escapes the line
    breaks; every RSA helper restores them before use. */
module Pem {

  const Backslash: char := '\\'

  /** The PKCS#1 public-key header, which both sides look for. */
  const RsaPublicKeyHeader := "BEGIN RSA PUBLIC KEY"

  /** The SubjectPublicKeyInfo header, which only the browser also accepts. */
  const PublicKeyHeader := "BEGIN PUBLIC KEY"

  /** A backslash immediately followed by `n` at position `i`. */
  predicate EscapeAt(s: string, i: int)
    requires 0 <= i < |s| - 1
  {
    s[i] == Backslash && s[i + 1] == 'n'
  }

  predicate NoEscapedNewline(s: string) {
    forall i :: 0 <= i < |s| - 1 ==> !EscapeAt(s, i)
  }

  /** `key.replace(/\\n/g, '\n')`: scanning left to right, each backslash
      followed by `n` becomes one line break.  The result holds no such pair
      any more, and text without one is left as it is. */
  function Normalize(s: string): (r: string)
    ensures |r| <= |s|
    ensures |r| > 0 <==> |s| > 0
    ensures |s| > 0 ==> r[0] == s[0] || (r[0] == '\n' && s[0] == Backslash)
    ensures NoEscapedNewline(r)
    ensures NoEscapedNewline(s) ==> r == s
    decreases |s|
  {
    if |s| == 0 then []
    else if |s| >= 2 && s[0] == Backslash && s[1] == 'n' then
      var t := Normalize(s[2..]);
      assert EscapeAt(s, 0);
      NoEscapeCons('\n', t);
      ['\n'] + t
    else
      var t := Normalize(s[1..]);
      NoEscapedNewlineTail(s);
      NoEscapeCons(s[0], t);
      assert NoEscapedNewline(s) ==> [s[0]] + t == s by {
        if NoEscapedNewline(s) {
          assert [s[0]] + s[1..] == s;
        }
      }
      [s[0]] + t
  }

  /** Putting a character in front of text without pairs makes no pair,
      unless it is a backslash before an `n`. */
  lemma NoEscapeCons(c: char, t: string)
    requires NoEscapedNewline(t)
    requires c == Backslash ==> |t| == 0 || t[0] != 'n'
    ensures NoEscapedNewline([c] + t)
  {
    var r := [c] + t;
    forall i | 0 <= i < |r| - 1
      ensures !EscapeAt(r, i)
    {
      if i > 0 {
        assert !EscapeAt(t, i - 1);
      }
    }
  }

  /** `pem.replace(/\n/g, '\\n')`, as the setup script stores a key. */
  function Escape(s: string): (r: string)
    ensures |r| > 0 <==> |s| > 0
    ensures |s| > 0 ==> r[0] == s[0] || (r[0] == Backslash && s[0] == '\n')
  {
    if |s| == 0 then []
    else if s[0] == '\n' then [Backslash, 'n'] + Escape(s[1..])
    else [s[0]] + Escape(s[1..])
  }

  lemma NoEscapedNewlineTail(s: string)
    requires |s| > 0
    ensures NoEscapedNewline(s) ==> NoEscapedNewline(s[1..])
  {
    if NoEscapedNewline(s) {
      forall i | 0 <= i < |s[1..]| - 1
        ensures !EscapeAt(s[1..], i)
      {
        assert !EscapeAt(s, i + 1);
      }
    }
  }

  /** Normalising twice is normalising once. */
  lemma NormalizeIdempotent(s: string)
    ensures Normalize(Normalize(s)) == Normalize(s)
  {
  }

  /** Normalising undoes the setup script's escaping, for every text that
      does not itself contain a backslash-`n` pair (PEM text contains no
      backslash at all). */
  lemma {:induction false} NormalizeEscape(s: string)
    requires NoEscapedNewline(s)
    ensures Normalize(Escape(s)) == s
    decreases |s|
  {
    if |s| > 0 {
      NoEscapedNewlineTail(s);
      NormalizeEscape(s[1..]);
      var e := Escape(s[1..]);
      if s[0] == '\n' {
        assert Escape(s) == [Backslash, 'n'] + e;
        NormalizePair(e);
      } else {
        assert Escape(s) == [s[0]] + e;
        if s[0] == Backslash && |s| >= 2 {
          assert !EscapeAt(s, 0);
        }
        NormalizeOther(s[0], e);
      }
      assert [s[0]] + s[1..] == s;
    }
  }

  /** An escaped pair in front becomes a line break. */
  lemma NormalizePair(e: string)
    ensures Normalize([Backslash, 'n'] + e) == ['\n'] + Normalize(e)
  {
    assert ([Backslash, 'n'] + e)[2..] == e;
  }

  /** Any other character in front is kept. */
  lemma NormalizeOther(c: char, e: string)
    requires c == Backslash ==> |e| == 0 || e[0] != 'n'
    ensures Normalize([c] + e) == [c] + Normalize(e)
  {
    assert ([c] + e)[1..] == e;
  }
}
