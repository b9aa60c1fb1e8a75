/** JSON text as `JSON.stringify` writes it (no whitespace) and `JSON.parse`
    reads it (whitespace allowed between tokens), for values built from
    `null`, booleans, strings, arrays and objects.  An object keeps its
    members in order, and looking a name up finds the last member with that
    name, as property access on a parsed object does. */
module Json {
  import opened Results
  import Hex

  /** A JSON value; numbers are not part of the model. */
  datatype Value =
    | Null
    | Bool(b: bool)
    | Str(s: string)
    | Arr(items: seq<Value>)
    | Obj(members: seq<Member>)

  datatype Member = Member(name: string, value: Value)

  /** The message standing for the `SyntaxError` that `JSON.parse` throws
      (its wording belongs to the JavaScript engine). */
  const MalformedJson := "malformed JSON"

  const Quote: char := '"'
  const Backslash: char := '\\'
  const Backspace: char := '\U{8}'
  const FormFeed: char := '\U{C}'
  const NullText := "null"
  const TrueText := "true"
  const FalseText := "false"

  /** JavaScript truthiness of a property that may be absent (`undefined`). */
  predicate Truthy(v: Option<Value>) {
    match v
    case None => false
    case Some(Null) => false
    case Some(Bool(b)) => b
    case Some(Str(s)) => s != ""
    case Some(_) => true
  }

  /** The characters `JSON.stringify` writes for one character of a string. */
  function EscapeChar(c: char): (e: string)
    ensures 1 <= |e| && e[0] != Quote
  {
    if c == Quote then [Backslash, Quote]
    else if c == Backslash then [Backslash, Backslash]
    else if c == Backspace then "\\b"
    else if c == FormFeed then "\\f"
    else if c == '\n' then "\\n"
    else if c == '\r' then "\\r"
    else if c == '\t' then "\\t"
    else if (c as int) < 0x20 then "\\u00" + [Hex.DigitChar(c as int / 16), Hex.DigitChar(c as int % 16)]
    else [c]
  }

  function Escape(s: string): string
  {
    if |s| == 0 then [] else EscapeChar(s[0]) + Escape(s[1..])
  }

  function StringLiteral(s: string): string
  {
    [Quote] + Escape(s) + [Quote]
  }

  /** The characters a value's text can start with. */
  predicate StartsValue(c: char) {
    c == 'n' || c == 't' || c == 'f' || c == Quote || c == '[' || c == '{'
  }

  /** `JSON.stringify(v)` */
  function Stringify(v: Value): (r: string)
    ensures |r| > 0 && StartsValue(r[0])
    decreases v
  {
    match v
    case Null => NullText
    case Bool(b) => if b then TrueText else FalseText
    case Str(s) => StringLiteral(s)
    case Arr(items) => "[" + ItemsText(items) + "]"
    case Obj(ms) => "{" + MembersText(ms) + "}"
  }

  function ItemsText(items: seq<Value>): (r: string)
    ensures |items| > 0 ==> |r| > 0 && StartsValue(r[0])
    decreases items
  {
    if |items| == 0 then ""
    else if |items| == 1 then Stringify(items[0])
    else Stringify(items[0]) + "," + ItemsText(items[1..])
  }

  function MemberText(m: Member): (r: string)
    ensures |r| > 0 && r[0] == Quote
    decreases m
  {
    StringLiteral(m.name) + ":" + Stringify(m.value)
  }

  function MembersText(ms: seq<Member>): (r: string)
    ensures |ms| > 0 ==> |r| > 0 && r[0] == Quote
    decreases ms
  {
    if |ms| == 0 then ""
    else if |ms| == 1 then MemberText(ms[0])
    else MemberText(ms[0]) + "," + MembersText(ms[1..])
  }

  /** The value an object holds for `name`: the last member with that name. */
  function Get(ms: seq<Member>, name: string): (r: Option<Value>)
    ensures r.Some? <==> Named(ms, name)
    ensures r.Some? ==> LastWith(ms, name, r.value)
  {
    if |ms| == 0 then None
    else if ms[|ms| - 1].name == name then
      assert ms[|ms| - 1] == Member(name, ms[|ms| - 1].value);
      Some(ms[|ms| - 1].value)
    else
      var r := Get(ms[..|ms| - 1], name);
      GetEarlier(ms, name, r);
      r
  }

  /** Some member has the name. */
  ghost predicate Named(ms: seq<Member>, name: string) {
    exists i :: 0 <= i < |ms| && ms[i].name == name
  }

  /** The member `name: v` comes after every other member of that name. */
  ghost predicate LastWith(ms: seq<Member>, name: string, v: Value) {
    exists i :: 0 <= i < |ms| && ms[i] == Member(name, v) && forall j :: i < j < |ms| ==> ms[j].name != name
  }

  /** When the last member has another name, what holds of the others holds
      of the whole object. */
  lemma GetEarlier(ms: seq<Member>, name: string, r: Option<Value>)
    requires |ms| > 0 && ms[|ms| - 1].name != name
    requires r.Some? <==> Named(ms[..|ms| - 1], name)
    requires r.Some? ==> LastWith(ms[..|ms| - 1], name, r.value)
    ensures r.Some? <==> Named(ms, name)
    ensures r.Some? ==> LastWith(ms, name, r.value)
  {
    var init := ms[..|ms| - 1];
    assert forall i :: 0 <= i < |init| ==> init[i] == ms[i];
    if r.Some? {
      var i :| 0 <= i < |init| && init[i] == Member(name, r.value)
               && forall j :: i < j < |init| ==> init[j].name != name;
      assert ms[i] == Member(name, r.value);
    }
    if Named(ms, name) {
      var i :| 0 <= i < |ms| && ms[i].name == name;
      assert init[i].name == name;
    }
  }

  /** Property access `v[name]` on a parsed value other than `null`: only an
      object has members. */
  function Field(v: Value, name: string): (r: Option<Value>)
    ensures r.Some? ==> v.Obj?
    ensures v.Obj? ==> r == Get(v.members, name)
  {
    if v.Obj? then Get(v.members, name) else None
  }

  /** A member whose name no other member shares is what `Get` finds. */
  lemma {:induction false} GetUnique(ms: seq<Member>, i: nat)
    requires i < |ms|
    requires forall j :: 0 <= j < |ms| && j != i ==> ms[j].name != ms[i].name
    ensures Get(ms, ms[i].name) == Some(ms[i].value)
  {
    if i < |ms| - 1 {
      var init := ms[..|ms| - 1];
      assert init[i] == ms[i];
      forall j | 0 <= j < |init| && j != i
        ensures init[j].name != init[i].name
      {
        assert init[j] == ms[j];
      }
      GetUnique(init, i);
    }
  }

  /** Adding a member overrides earlier members of its name and leaves the
      other names alone. */
  lemma GetAppend(ms: seq<Member>, m: Member, name: string)
    ensures Get(ms + [m], name) == if m.name == name then Some(m.value) else Get(ms, name)
  {
    assert (ms + [m])[..|ms|] == ms;
  }

  /** Reading back a three-member object with distinct names. */
  lemma GetThree(a: string, x: Value, b: string, y: Value, c: string, z: Value)
    requires a != b && b != c && a != c
    ensures var ms := [Member(a, x), Member(b, y), Member(c, z)];
      Get(ms, a) == Some(x) && Get(ms, b) == Some(y) && Get(ms, c) == Some(z)
  {
    var m1 := [Member(a, x)];
    var m2 := m1 + [Member(b, y)];
    assert [Member(a, x), Member(b, y), Member(c, z)] == m2 + [Member(c, z)];
    GetAppend(m2, Member(c, z), a);
    GetAppend(m2, Member(c, z), b);
    GetAppend(m2, Member(c, z), c);
    GetAppend(m1, Member(b, y), a);
    GetAppend(m1, Member(b, y), b);
  }

  // ---- parsing -----------------------------------------------------------

  predicate IsWhitespace(c: char) {
    c == ' ' || c == '\t' || c == '\n' || c == '\r'
  }

  /** The text after any leading whitespace. */
  function SkipWs(s: string): (r: string)
    ensures |r| <= |s|
    ensures |r| > 0 ==> !IsWhitespace(r[0])
  {
    if |s| > 0 && IsWhitespace(s[0]) then SkipWs(s[1..]) else s
  }

  /** The value of four hex digits (either case). */
  function Hex4(s: string): (r: Option<int>)
    requires |s| == 4
    ensures r.Some? ==> 0 <= r.value < 0x10000
  {
    match (Hex.DigitValue(s[0]), Hex.DigitValue(s[1]), Hex.DigitValue(s[2]), Hex.DigitValue(s[3]))
    case (Some(a), Some(b), Some(c), Some(d)) => Some(a * 4096 + b * 256 + c * 16 + d)
    case _ => None
  }

  /** A `\u` escape of a high surrogate followed by one of a low surrogate:
      the scalar value the pair encodes. */
  function SurrogatePair(hi: int, s: string): (r: Option<char>)
    requires 0xD800 <= hi < 0xDC00
  {
    if |s| >= 6 && s[0] == Backslash && s[1] == 'u' then
      match Hex4(s[2..6])
      case Some(lo) =>
        if 0xDC00 <= lo < 0xE000 then Some((0x10000 + (hi - 0xD800) * 0x400 + (lo - 0xDC00)) as char)
        else None
      case None => None
    else None
  }

  /** One character of a string literal body, as a plain character or an
      escape, with the number of characters it takes.  Raw control
      characters are rejected, and so is a surrogate escape that is not half
      of a high-low pair: scalar-value strings cannot hold it. */
  function Unit(s: string): (r: Option<(char, nat)>)
    requires |s| > 0 && s[0] != Quote
    ensures r.Some? ==> 1 <= r.value.1 <= |s|
  {
    if s[0] == Backslash then
      if |s| < 2 then None
      else if s[1] == Quote then Some((Quote, 2))
      else if s[1] == Backslash then Some((Backslash, 2))
      else if s[1] == '/' then Some(('/', 2))
      else if s[1] == 'b' then Some((Backspace, 2))
      else if s[1] == 'f' then Some((FormFeed, 2))
      else if s[1] == 'n' then Some(('\n', 2))
      else if s[1] == 'r' then Some(('\r', 2))
      else if s[1] == 't' then Some(('\t', 2))
      else if s[1] == 'u' && |s| >= 6 then
        match Hex4(s[2..6])
        case Some(v) =>
          if v < 0xD800 || 0xE000 <= v then Some((v as char, 6))
          else if v < 0xDC00 then
            match SurrogatePair(v, s[6..])
            case Some(c) => Some((c, 12))
            case None => None
          else None
        case None => None
      else None
    else if (s[0] as int) < 0x20 then None
    else Some((s[0], 1))
  }

  /** The body of a string literal up to its closing quote: the decoded
      string and the text after the quote. */
  function StringBody(s: string): (r: Option<(string, string)>)
    ensures r.Some? ==> |r.value.1| < |s|
    decreases |s|
  {
    if |s| == 0 then None
    else if s[0] == Quote then Some(([], s[1..]))
    else match Unit(s)
      case None => None
      case Some((c, n)) =>
        match StringBody(s[n..])
        case None => None
        case Some((t, rest)) => Some(([c] + t, rest))
  }

  /** A string literal, opening quote included. */
  function ParseString(s: string): (r: Option<(string, string)>)
    ensures r.Some? ==> |r.value.1| < |s|
  {
    if |s| == 0 || s[0] != Quote then None else StringBody(s[1..])
  }

  /** A value at the start of `s` and the text after it. */
  function ParseValue(s: string): (r: Option<(Value, string)>)
    ensures r.Some? ==> |r.value.1| < |s|
    decreases |s|, 0
  {
    if |s| == 0 then None
    else if s[0] == Quote then
      match ParseString(s)
      case None => None
      case Some((t, rest)) => Some((Str(t), rest))
    else if s[0] == '[' then
      var t := SkipWs(s[1..]);
      if |t| > 0 && t[0] == ']' then Some((Arr([]), t[1..]))
      else match ParseItems(t)
        case None => None
        case Some((items, rest)) => Some((Arr(items), rest))
    else if s[0] == '{' then
      var t := SkipWs(s[1..]);
      if |t| > 0 && t[0] == '}' then Some((Obj([]), t[1..]))
      else match ParseMembers(t)
        case None => None
        case Some((ms, rest)) => Some((Obj(ms), rest))
    else if NullText <= s then Some((Null, s[|NullText|..]))
    else if TrueText <= s then Some((Bool(true), s[|TrueText|..]))
    else if FalseText <= s then Some((Bool(false), s[|FalseText|..]))
    else None
  }

  /** Array items separated by commas, up to and including the closing
      bracket. */
  function ParseItems(s: string): (r: Option<(seq<Value>, string)>)
    ensures r.Some? ==> |r.value.0| >= 1 && |r.value.1| < |s|
    decreases |s|, 1
  {
    match ParseValue(s)
    case None => None
    case Some((v, r1)) =>
      var r2 := SkipWs(r1);
      if |r2| == 0 then None
      else if r2[0] == ']' then Some(([v], r2[1..]))
      else if r2[0] == ',' then
        match ParseItems(SkipWs(r2[1..]))
        case None => None
        case Some((vs, rest)) => Some(([v] + vs, rest))
      else None
  }

  /** `"name" : value` */
  function ParseMember(s: string): (r: Option<(Member, string)>)
    ensures r.Some? ==> |r.value.1| < |s|
    decreases |s|, 0
  {
    match ParseString(s)
    case None => None
    case Some((name, r1)) =>
      var r2 := SkipWs(r1);
      if |r2| == 0 || r2[0] != ':' then None
      else match ParseValue(SkipWs(r2[1..]))
        case None => None
        case Some((value, r3)) => Some((Member(name, value), r3))
  }

  /** Members separated by commas, up to and including the closing brace. */
  function ParseMembers(s: string): (r: Option<(seq<Member>, string)>)
    ensures r.Some? ==> |r.value.0| >= 1 && |r.value.1| < |s|
    decreases |s|, 1
  {
    match ParseMember(s)
    case None => None
    case Some((m, r1)) =>
      var r2 := SkipWs(r1);
      if |r2| == 0 then None
      else if r2[0] == '}' then Some(([m], r2[1..]))
      else if r2[0] == ',' then
        match ParseMembers(SkipWs(r2[1..]))
        case None => None
        case Some((ms, rest)) => Some(([m] + ms, rest))
      else None
  }

  /** `JSON.parse(s)`; `None` when it would throw. */
  function Parse(s: string): (r: Option<Value>)
    ensures r.Some? ==> |SkipWs(s)| > 0 && StartsValue(SkipWs(s)[0])
  {
    var t := SkipWs(s);
    match ParseValue(t)
    case None => None
    case Some((v, rest)) => if SkipWs(rest) == [] then Some(v) else None
  }

  // ---- round trip --------------------------------------------------------

  lemma UnitOfEscapeChar(c: char, rest: string)
    ensures (EscapeChar(c) + rest)[0] != Quote
    ensures Unit(EscapeChar(c) + rest) == Some((c, |EscapeChar(c)|))
  {
    var s := EscapeChar(c) + rest;
    assert s[0] == EscapeChar(c)[0];
    if c != Quote && c != Backslash && c != Backspace && c != FormFeed
      && c != '\n' && c != '\r' && c != '\t' && (c as int) < 0x20
    {
      var v := c as int;
      Hex.DigitValueOfDigitChar(v / 16);
      Hex.DigitValueOfDigitChar(v % 16);
      Hex.DigitValueOfDigitChar(0);
      assert s[2..6] == ['0', '0', Hex.DigitChar(v / 16), Hex.DigitChar(v % 16)];
      assert Hex4(s[2..6]) == Some(v);
    }
  }

  lemma {:induction false} StringBodyStep(x: string, c: char, n: nat, t: string, rest: string)
    requires |x| > 0 && x[0] != Quote && n <= |x|
    requires Unit(x) == Some((c, n))
    requires StringBody(x[n..]) == Some((t, rest))
    ensures StringBody(x) == Some(([c] + t, rest))
  {
  }

  /** A string literal body written by `Escape` reads back as the original
      string, leaving whatever follows the closing quote. */
  lemma {:induction false} StringBodyOfEscape(s: string, rest: string)
    ensures StringBody(Escape(s) + [Quote] + rest) == Some((s, rest))
  {
    if |s| == 0 {
      assert Escape(s) + [Quote] + rest == [Quote] + rest;
    } else {
      var e := EscapeChar(s[0]);
      var t := Escape(s[1..]) + [Quote] + rest;
      assert Escape(s) + [Quote] + rest == e + t;
      UnitOfEscapeChar(s[0], t);
      assert (e + t)[|e|..] == t;
      StringBodyOfEscape(s[1..], rest);
      StringBodyStep(e + t, s[0], |e|, s[1..], rest);
      assert [s[0]] + s[1..] == s;
    }
  }

  lemma {:induction false} SkipNothing(s: string)
    requires |s| > 0 && !IsWhitespace(s[0])
    ensures SkipWs(s) == s
  {
  }

  lemma {:induction false} ParseStringLiteral(s: string, rest: string)
    ensures ParseString(StringLiteral(s) + rest) == Some((s, rest))
  {
    var x := StringLiteral(s) + rest;
    assert x[0] == Quote;
    assert x[1..] == Escape(s) + [Quote] + rest;
    StringBodyOfEscape(s, rest);
  }

  /** A value's text never starts with whitespace, so skipping whitespace
      in front of it changes nothing. */
  lemma ValueStart(v: Value, rest: string)
    ensures |Stringify(v) + rest| > 0 && StartsValue((Stringify(v) + rest)[0])
    ensures SkipWs(Stringify(v) + rest) == Stringify(v) + rest
  {
    assert (Stringify(v) + rest)[0] == Stringify(v)[0];
    SkipNothing(Stringify(v) + rest);
  }

  lemma ParseWord(word: string, v: Value, rest: string)
    requires (word == NullText && v == Null) || (word == TrueText && v == Bool(true))
          || (word == FalseText && v == Bool(false))
    ensures ParseValue(word + rest) == Some((v, rest))
  {
    var s := word + rest;
    assert s[..|word|] == word;
    assert s[|word|..] == rest;
  }

  lemma {:induction false} ParseStrStep(s: string, rest: string)
    ensures ParseValue(StringLiteral(s) + rest) == Some((Str(s), rest))
  {
    ParseStringLiteral(s, rest);
    assert (StringLiteral(s) + rest)[0] == Quote;
  }

  /** An opening bracket or brace followed by the closing one. */
  lemma {:induction false} ParseEmptyStep(open: char, close: char, v: Value, rest: string)
    requires (open == '[' && close == ']' && v == Arr([])) || (open == '{' && close == '}' && v == Obj([]))
    ensures ParseValue([open] + [close] + rest) == Some((v, rest))
  {
    var s := [open] + [close] + rest;
    assert s[1..] == [close] + rest;
    SkipNothing(s[1..]);
    assert s[1..][1..] == rest;
  }

  lemma {:induction false} ParseArrayStep(body: string, items: seq<Value>, rest: string)
    requires |body| > 0 && StartsValue(body[0])
    requires ParseItems(body) == Some((items, rest))
    ensures ParseValue("[" + body) == Some((Arr(items), rest))
  {
    var s := "[" + body;
    assert s[1..] == body;
    SkipNothing(body);
  }

  lemma {:induction false} ParseObjectStep(body: string, ms: seq<Member>, rest: string)
    requires |body| > 0 && StartsValue(body[0])
    requires ParseMembers(body) == Some((ms, rest))
    ensures ParseValue("{" + body) == Some((Obj(ms), rest))
  {
    var s := "{" + body;
    assert s[1..] == body;
    SkipNothing(body);
  }

  /** Reading back any value's text, whatever follows it. */
  lemma {:induction false} ParseValueText(v: Value, rest: string)
    ensures ParseValue(Stringify(v) + rest) == Some((v, rest))
    decreases v, 2
  {
    match v
    case Null => ParseWord(NullText, v, rest);
    case Bool(b) => if b { ParseWord(TrueText, v, rest); } else { ParseWord(FalseText, v, rest); }
    case Str(s) => ParseStrStep(s, rest);
    case Arr(items) => ParseArrayText(items, rest);
    case Obj(ms) => ParseObjectText(ms, rest);
  }

  lemma {:induction false} ParseArrayText(items: seq<Value>, rest: string)
    ensures ParseValue(Stringify(Arr(items)) + rest) == Some((Arr(items), rest))
    decreases items, 1
  {
    ArrayTextSplit(items, rest);
    if |items| == 0 {
      ParseEmptyStep('[', ']', Arr(items), rest);
    } else {
      ParseItemsText(items, rest);
      ParseArrayStep(ItemsText(items) + "]" + rest, items, rest);
    }
  }

  lemma ArrayTextSplit(items: seq<Value>, rest: string)
    ensures |items| == 0 ==> Stringify(Arr(items)) + rest == ['['] + [']'] + rest
    ensures |items| > 0 ==>
      var body := ItemsText(items) + "]" + rest;
      Stringify(Arr(items)) + rest == "[" + body && |body| > 0 && StartsValue(body[0])
  {
    if |items| == 0 {
      Enclose('[', [], ']', rest);
    } else {
      Enclose('[', ItemsText(items), ']', rest);
    }
  }

  lemma {:induction false} ParseObjectText(ms: seq<Member>, rest: string)
    ensures ParseValue(Stringify(Obj(ms)) + rest) == Some((Obj(ms), rest))
    decreases ms, 1
  {
    ObjectTextSplit(ms, rest);
    if |ms| == 0 {
      ParseEmptyStep('{', '}', Obj(ms), rest);
    } else {
      ParseMembersText(ms, rest);
      ParseObjectStep(MembersText(ms) + "}" + rest, ms, rest);
    }
  }

  lemma ObjectTextSplit(ms: seq<Member>, rest: string)
    ensures |ms| == 0 ==> Stringify(Obj(ms)) + rest == ['{'] + ['}'] + rest
    ensures |ms| > 0 ==>
      var body := MembersText(ms) + "}" + rest;
      Stringify(Obj(ms)) + rest == "{" + body && |body| > 0 && body[0] == Quote
  {
    if |ms| == 0 {
      Enclose('{', [], '}', rest);
    } else {
      Enclose('{', MembersText(ms), '}', rest);
    }
  }

  lemma ItemsStart(items: seq<Value>, rest: string)
    requires |items| >= 1
    ensures |ItemsText(items) + rest| > 0 && StartsValue((ItemsText(items) + rest)[0])
  {
    assert (ItemsText(items) + rest)[0] == Stringify(items[0])[0];
  }

  lemma {:induction false} ParseItemLast(x: string, v: Value, rest: string)
    requires ParseValue(x) == Some((v, "]" + rest))
    ensures ParseItems(x) == Some(([v], rest))
  {
    var t := "]" + rest;
    SkipNothing(t);
    assert t[1..] == rest;
  }

  lemma {:induction false} ParseItemNext(x: string, v: Value, tail: string, vs: seq<Value>, rest: string)
    requires |tail| > 0 && StartsValue(tail[0])
    requires ParseValue(x) == Some((v, "," + tail))
    requires ParseItems(tail) == Some((vs, rest))
    ensures ParseItems(x) == Some(([v] + vs, rest))
  {
    var t := "," + tail;
    SkipNothing(t);
    assert t[1..] == tail;
    SkipNothing(tail);
  }

  /** Reading back the items of a non-empty array and its closing bracket. */
  lemma {:induction false} ParseItemsText(items: seq<Value>, rest: string)
    requires |items| >= 1
    ensures ParseItems(ItemsText(items) + "]" + rest) == Some((items, rest))
    decreases items, 0
  {
    ItemsTextSplit(items, rest);
    HeadTail(items);
    var x := ItemsText(items) + "]" + rest;
    if |items| == 1 {
      ParseValueText(items[0], "]" + rest);
      ParseItemLast(x, items[0], rest);
    } else {
      var tail := ItemsText(items[1..]) + "]" + rest;
      ParseValueText(items[0], "," + tail);
      ParseItemsText(items[1..], rest);
      ParseItemNext(x, items[0], tail, items[1..], rest);
    }
  }

  /** How the text of items and a closing bracket splits at its first
      item. */
  lemma ItemsTextSplit(items: seq<Value>, rest: string)
    requires |items| >= 1
    ensures |items| == 1 ==> ItemsText(items) + "]" + rest == Stringify(items[0]) + ("]" + rest)
    ensures |items| > 1 ==>
      var tail := ItemsText(items[1..]) + "]" + rest;
      && ItemsText(items) + "]" + rest == Stringify(items[0]) + ("," + tail)
      && |tail| > 0 && StartsValue(tail[0])
  {
    ItemsTextCons(items);
    if |items| == 1 {
      Regroup(Stringify(items[0]), "", "", "]", rest);
    } else {
      Regroup(Stringify(items[0]), ",", ItemsText(items[1..]), "]", rest);
    }
  }

  lemma ItemsTextCons(items: seq<Value>)
    requires |items| >= 1
    ensures |items| == 1 ==> ItemsText(items) == Stringify(items[0])
    ensures |items| > 1 ==> ItemsText(items) == Stringify(items[0]) + "," + ItemsText(items[1..])
  {
  }

  lemma {:induction false} ParseMemberSteps(x: string, name: string, t: string, value: Value, rest: string)
    requires ParseString(x) == Some((name, t))
    requires |t| > 1 && t[0] == ':' && StartsValue(t[1])
    requires ParseValue(t[1..]) == Some((value, rest))
    ensures ParseMember(x) == Some((Member(name, value), rest))
  {
    SkipNothing(t);
    SkipNothing(t[1..]);
  }

  /** Reading back one member, whatever follows it. */
  lemma {:induction false} ParseMemberText(m: Member, rest: string)
    ensures ParseMember(MemberText(m) + rest) == Some((m, rest))
    decreases m, 0
  {
    var v := Stringify(m.value) + rest;
    var t := ":" + v;
    assert MemberText(m) + rest == StringLiteral(m.name) + t;
    ParseStringLiteral(m.name, t);
    ParseValueText(m.value, rest);
    ValueStart(m.value, rest);
    assert t[1..] == v;
    ParseMemberSteps(MemberText(m) + rest, m.name, t, m.value, rest);
  }

  lemma {:induction false} ParseLastSteps(x: string, m: Member, rest: string)
    requires ParseMember(x) == Some((m, "}" + rest))
    ensures ParseMembers(x) == Some(([m], rest))
  {
    var t := "}" + rest;
    SkipNothing(t);
    assert t[1..] == rest;
  }

  lemma {:induction false} ParseNextSteps(x: string, m: Member, tail: string, ms: seq<Member>, rest: string)
    requires |tail| > 0 && tail[0] == Quote
    requires ParseMember(x) == Some((m, "," + tail))
    requires ParseMembers(tail) == Some((ms, rest))
    ensures ParseMembers(x) == Some(([m] + ms, rest))
  {
    var t := "," + tail;
    SkipNothing(t);
    assert t[1..] == tail;
    SkipNothing(tail);
  }

  /** Text between an opening and a closing character, and what follows. */
  lemma Enclose(open: char, t: string, close: char, rest: string)
    ensures [open] + t + [close] + rest == [open] + (t + [close] + rest)
    ensures |t| > 0 ==> (t + [close] + rest)[0] == t[0]
    ensures |t| == 0 ==> [open] + t + [close] + rest == [open] + [close] + rest
  {
  }

  lemma HeadTail<T>(s: seq<T>)
    requires |s| > 0
    ensures [s[0]] + s[1..] == s
    ensures |s| == 1 ==> [s[0]] == s
  {
  }

  lemma Regroup(a: string, c: string, b: string, d: string, e: string)
    ensures a + c + b + d + e == a + (c + (b + d + e))
    ensures |b| > 0 ==> (b + d + e)[0] == b[0]
    ensures c == "" && b == "" ==> a + c + b + d + e == a + (d + e)
  {
  }

  /** Reading back the members of a non-empty object and its closing
      brace. */
  lemma {:induction false} ParseMembersText(ms: seq<Member>, rest: string)
    requires |ms| >= 1
    ensures ParseMembers(MembersText(ms) + "}" + rest) == Some((ms, rest))
    decreases ms, 0
  {
    MembersTextSplit(ms, rest);
    HeadTail(ms);
    var x := MembersText(ms) + "}" + rest;
    if |ms| == 1 {
      ParseMemberText(ms[0], "}" + rest);
      ParseLastSteps(x, ms[0], rest);
    } else {
      var tail := MembersText(ms[1..]) + "}" + rest;
      ParseMemberText(ms[0], "," + tail);
      ParseMembersText(ms[1..], rest);
      ParseNextSteps(x, ms[0], tail, ms[1..], rest);
    }
  }

  /** How the text of members and a closing brace splits at its first
      member. */
  lemma MembersTextSplit(ms: seq<Member>, rest: string)
    requires |ms| >= 1
    ensures |ms| == 1 ==> MembersText(ms) + "}" + rest == MemberText(ms[0]) + ("}" + rest)
    ensures |ms| > 1 ==>
      var tail := MembersText(ms[1..]) + "}" + rest;
      && MembersText(ms) + "}" + rest == MemberText(ms[0]) + ("," + tail)
      && |tail| > 0 && tail[0] == Quote
  {
    MembersTextCons(ms);
    if |ms| == 1 {
      Regroup(MemberText(ms[0]), "", "", "}", rest);
    } else {
      Regroup(MemberText(ms[0]), ",", MembersText(ms[1..]), "}", rest);
    }
  }

  lemma MembersTextCons(ms: seq<Member>)
    requires |ms| >= 1
    ensures |ms| == 1 ==> MembersText(ms) == MemberText(ms[0])
    ensures |ms| > 1 ==> MembersText(ms) == MemberText(ms[0]) + "," + MembersText(ms[1..])
  {
  }

  /** Parsing inverts stringifying. */
  lemma ParseStringify(v: Value)
    ensures Parse(Stringify(v)) == Some(v)
  {
    ValueStart(v, []);
    ParseValueText(v, []);
    assert Stringify(v) + [] == Stringify(v);
  }
}
