/** The part of JSON (RFC 8259) that the front-end's `JSON.parse` and
    `JSON.stringify` calls exercise: null, booleans, integers, strings, arrays
    and objects. `Stringify` writes text the way `JSON.stringify` does (no
    white space, the same escapes) and `Parse` reads it the way `JSON.parse`
    does, including the white space it accepts, except for numbers: `Num`
    holds any integer exactly, where JavaScript keeps a double, so the two
    agree on numbers only for the safe integers, |n| <= 2^53 - 1. `RoundTrip`
    proves that parsing undoes stringifying. */
module Json {
  import opened Wrappers
  import opened JsString

  datatype Value =
    | Null
    | Bool(b: bool)
    | Num(n: int)
    | Str(s: string)
    | Arr(items: seq<Value>)
    | Obj(members: seq<(string, Value)>)

  /** The last member named `key` of the last one wins (as the object `JSON.parse`
      builds keeps the last duplicate); `None` for a missing key. */
  function LookupLast(ms: seq<(string, Value)>, key: string): (r: Option<Value>)
    ensures r.Some? ==> exists i :: 0 <= i < |ms| && ms[i] == (key, r.value)
    ensures r.None? ==> forall i :: 0 <= i < |ms| ==> ms[i].0 != key
  {
    if |ms| == 0 then None
    else if ms[|ms| - 1].0 == key then Some(ms[|ms| - 1].1)
    else LookupLast(ms[..|ms| - 1], key)
  }

  /** JavaScript `v?.[key]` on a parsed value: only objects have named members. */
  function Member(v: Value, key: string): (r: Option<Value>)
    ensures r.Some? ==> v.Obj?
  {
    match v
    case Obj(ms) => LookupLast(ms, key)
    case _ => None
  }

  /** The member at index `i` is the one found when no later member has its name. */
  lemma {:induction false} LookupAt(ms: seq<(string, Value)>, key: string, i: nat)
    requires i < |ms| && ms[i].0 == key
    requires forall j :: i < j < |ms| ==> ms[j].0 != key
    ensures LookupLast(ms, key) == Some(ms[i].1)
  {
    if i < |ms| - 1 {
      LookupAt(ms[..|ms| - 1], key, i);
    }
  }

  // ---------------------------------------------------------------------------
  // Stringify

  function HexDigit(d: nat): (c: char)
    requires d < 16
  {
    if d < 10 then DigitChar(d) else ('a' as int + d - 10) as char
  }

  /** How `JSON.stringify` writes one character inside a string literal. */
  function EscapeChar(c: char): string {
    var n := c as int;
    if c == '"' then ['\\', '"']
    else if c == '\\' then ['\\', '\\']
    else if n == 0x08 then ['\\', 'b']
    else if n == 0x0C then ['\\', 'f']
    else if n == 0x0A then ['\\', 'n']
    else if n == 0x0D then ['\\', 'r']
    else if n == 0x09 then ['\\', 't']
    else if n < 0x20 then ['\\', 'u', '0', '0', HexDigit(n / 16), HexDigit(n % 16)]
    else [c]
  }

  function Escape(s: string): string {
    if |s| == 0 then [] else EscapeChar(s[0]) + Escape(s[1..])
  }

  function Quote(s: string): string {
    ['"'] + Escape(s) + ['"']
  }

  /** The text of an integer: an optional `-` and its decimal digits. */
  function NumberText(n: int): string {
    if n < 0 then ['-'] + NatToDigits(-n) else NatToDigits(n)
  }

  /** `JSON.stringify(v)` followed by `rest`. Writing each value in front of
      what comes after it keeps the text of a composite value a plain
      nesting of its parts. */
  function Write(v: Value, rest: string): string
    decreases v, 1
  {
    match v
    case Null => "null" + rest
    case Bool(b) => (if b then "true" else "false") + rest
    case Num(n) => NumberText(n) + rest
    case Str(s) => Quote(s) + rest
    case Arr(items) => ['['] + WriteItems(items, rest)
    case Obj(ms) => ['{'] + WriteMembers(ms, rest)
  }

  /** The elements of an array separated by `,`, then `]` and `rest`. */
  function WriteItems(items: seq<Value>, rest: string): string
    decreases items, 0
  {
    if |items| == 0 then [']'] + rest
    else if |items| == 1 then Write(items[0], [']'] + rest)
    else Write(items[0], [','] + WriteItems(items[1..], rest))
  }

  /** One `"key":value` member followed by `rest`. */
  function WriteMember(m: (string, Value), rest: string): string
    decreases m, 0
  {
    Quote(m.0) + ([':'] + Write(m.1, rest))
  }

  /** The members of an object separated by `,`, then `}` and `rest`. */
  function WriteMembers(ms: seq<(string, Value)>, rest: string): string
    decreases ms, 0
  {
    if |ms| == 0 then ['}'] + rest
    else if |ms| == 1 then WriteMember(ms[0], ['}'] + rest)
    else WriteMember(ms[0], [','] + WriteMembers(ms[1..], rest))
  }

  /** `JSON.stringify(v)`. */
  function Stringify(v: Value): string {
    Write(v, [])
  }

  // ---------------------------------------------------------------------------
  // Parse

  predicate IsJsonSpace(c: char) {
    c == ' ' || c == '\t' || c == '\n' || c == '\r'
  }

  function SkipSpace(s: string): (r: string)
    ensures |r| <= |s| && r == s[|s| - |r|..]
    ensures r == [] || !IsJsonSpace(r[0])
  {
    if |s| > 0 && IsJsonSpace(s[0]) then SkipSpace(s[1..]) else s
  }

  function HexValue(c: char): (d: nat)
    requires IsHexDigit(c)
    ensures d < 16
  {
    if IsDigit(c) then DigitValue(c)
    else if 'a' <= c <= 'f' then c as int - 'a' as int + 10
    else c as int - 'A' as int + 10
  }

  /** The code unit written by a `\uXXXX` escape. */
  function Hex4Value(h: string): (n: nat)
    requires |h| == 4 && forall i :: 0 <= i < 4 ==> IsHexDigit(h[i])
    ensures n < 0x10000
  {
    HexValue(h[0]) * 4096 + HexValue(h[1]) * 256 + HexValue(h[2]) * 16 + HexValue(h[3])
  }

  /** `s` starts with a `\uXXXX` escape of a low surrogate, `DC00`-`DFFF`. */
  predicate IsLowSurrogateEscape(s: string) {
    |s| >= 6 && s[0] == '\\' && s[1] == 'u' && (forall i :: 2 <= i < 6 ==> IsHexDigit(s[i])) &&
    0xDC00 <= Hex4Value(s[2..6]) < 0xE000
  }

  /** The character a surrogate pair of UTF-16 code units stands for
      (section 3.9 of the Unicode Standard): one beyond the Basic
      Multilingual Plane. */
  function PairChar(high: nat, low: nat): (c: char)
    requires 0xD800 <= high < 0xDC00 && 0xDC00 <= low < 0xE000
    ensures 0x10000 <= c as int < 0x110000
    ensures (c as int - 0x10000) / 0x400 == high - 0xD800 && (c as int - 0x10000) % 0x400 == low - 0xDC00
  {
    (0x10000 + (high - 0xD800) * 0x400 + (low - 0xDC00)) as char
  }

  /** The character a `\uXXXX` escape at the start of `s` stands for, and
      the length of the escape: a high surrogate followed by an escaped low
      one is a pair and stands for one character; any other surrogate is
      refused. */
  function UnicodeEscape(s: string): (r: Option<(char, nat)>)
    ensures r.Some? ==> 6 <= r.value.1 <= |s|
    ensures r.Some? ==>
              (r.value.1 == 6 && r.value.0 as int < 0x10000 && !(0xD800 <= r.value.0 as int < 0xE000)) ||
              (r.value.1 == 12 && 0x10000 <= r.value.0 as int)
  {
    if |s| >= 6 && s[0] == '\\' && s[1] == 'u' && forall i :: 2 <= i < 6 ==> IsHexDigit(s[i]) then
      var code := Hex4Value(s[2..6]);
      if 0xD800 <= code < 0xDC00 && IsLowSurrogateEscape(s[6..]) then
        Some((PairChar(code, Hex4Value(s[6..][2..6])), 12))
      else if 0xD800 <= code < 0xE000 then None
      else Some((code as char, 6))
    else None
  }

  /** The pair of escapes `JSON.parse` reads as U+1F600 (an emoji) reads as
      that single character. */
  lemma SurrogatePairEscape(tail: string)
    ensures UnicodeEscape("\\uD83D\\uDE00" + tail) == Some(('\U{1F600}', 12))
  {
    var s := "\\uD83D\\uDE00" + tail;
    var low := s[6..];
    assert s[2..6] == "D83D";
    assert low == "\\uDE00" + tail;
    assert low[2..6] == "DE00";
    assert HexValue('D') == 13 && HexValue('E') == 14 && HexValue('3') == 3 && HexValue('0') == 0;
    assert Hex4Value("D83D") == 0xD83D;
    assert Hex4Value("DE00") == 0xDE00;
    assert IsLowSurrogateEscape(low);
  }

  /** Inside a string literal the pair is one character of the string. */
  lemma SurrogatePairString(rest: string)
    ensures ParseChars("\\uD83D\\uDE00\"" + rest) == Some(("\U{1F600}", rest))
  {
    var s := "\\uD83D\\uDE00\"" + rest;
    SurrogatePairEscape("\"" + rest);
    assert s == "\\uD83D\\uDE00" + ("\"" + rest);
    assert s[12..] == "\"" + rest;
    assert s[12..][1..] == rest;
    assert s[0] == '\\' && s[1] == 'u';
    assert ParseChars(s[12..]) == Some(([], rest));
    assert ['\U{1F600}'] + [] == "\U{1F600}";
  }

  function Prepend(c: char, r: Option<(string, string)>): (r': Option<(string, string)>)
    ensures r'.Some? <==> r.Some?
    ensures r.Some? ==> r'.value == ([c] + r.value.0, r.value.1)
  {
    match r
    case None => None
    case Some((t, rest)) => Some(([c] + t, rest))
  }

  /** The characters of a string literal after its opening quote, up to and
      consuming the closing quote; the rest of the input follows. */
  function ParseChars(s: string): (r: Option<(string, string)>)
    ensures r.Some? ==> |r.value.1| < |s|
    decreases |s|
  {
    if |s| == 0 then None
    else if s[0] == '"' then Some(([], s[1..]))
    else if s[0] == '\\' then
      if |s| < 2 then None
      else
        var e := s[1];
        if e == '"' || e == '\\' || e == '/' then Prepend(e, ParseChars(s[2..]))
        else if e == 'b' then Prepend(0x08 as char, ParseChars(s[2..]))
        else if e == 'f' then Prepend(0x0C as char, ParseChars(s[2..]))
        else if e == 'n' then Prepend(0x0A as char, ParseChars(s[2..]))
        else if e == 'r' then Prepend(0x0D as char, ParseChars(s[2..]))
        else if e == 't' then Prepend(0x09 as char, ParseChars(s[2..]))
        else if e == 'u' then
          match UnicodeEscape(s)
          case None => None
          case Some((c, k)) => Prepend(c, ParseChars(s[k..]))
        else None
    else if (s[0] as int) < 0x20 then None
    else Prepend(s[0], ParseChars(s[1..]))
  }

  /** The length of the longest prefix of decimal digits. */
  function DigitSpan(s: string): (k: nat)
    ensures k <= |s| && IsDigits(s[..k])
    ensures k == |s| || !IsDigit(s[k])
  {
    if |s| > 0 && IsDigit(s[0]) then
      var k := 1 + DigitSpan(s[1..]);
      assert s[..k] == [s[0]] + s[1..][..k - 1];
      k
    else 0
  }

  /** An unsigned integer without superfluous leading zeros. */
  function ParseNat(s: string): (r: Option<(nat, string)>)
    ensures r.Some? ==> |r.value.1| < |s|
  {
    if |s| == 0 || !IsDigit(s[0]) then None
    else if s[0] == '0' then Some((0, s[1..]))
    else
      var k := DigitSpan(s);
      Some((DigitsValue(s[..k]), s[k..]))
  }

  function ParseNumber(s: string): (r: Option<(Value, string)>)
    ensures r.Some? ==> |r.value.1| < |s|
  {
    if |s| > 0 && s[0] == '-' then
      match ParseNat(s[1..])
      case Some((n, rest)) => var m: int := n; Some((Num(-m), rest))
      case None => None
    else
      match ParseNat(s)
      case Some((n, rest)) => Some((Num(n), rest))
      case None => None
  }

  function ParseLiteral(s: string, word: string, v: Value): (r: Option<(Value, string)>)
    requires |word| > 0
    ensures r.Some? ==> |r.value.1| < |s|
  {
    if |word| <= |s| && s[..|word|] == word then Some((v, s[|word|..])) else None
  }

  /** One JSON value after optional white space; the rest of the input follows. */
  function ParseValue(s: string): (r: Option<(Value, string)>)
    ensures r.Some? ==> |r.value.1| < |s|
    decreases |s|, 1
  {
    var t := SkipSpace(s);
    if |t| == 0 then None
    else if t[0] == '[' then ParseArray(t[1..])
    else if t[0] == '{' then ParseObject(t[1..])
    else ParseScalar(t)
  }

  /** A value that holds no other value: a literal, a string or a number. */
  function ParseScalar(t: string): (r: Option<(Value, string)>)
    requires |t| > 0
    ensures r.Some? ==> |r.value.1| < |t|
  {
    if t[0] == 'n' then ParseLiteral(t, "null", Null)
    else if t[0] == 't' then ParseLiteral(t, "true", Bool(true))
    else if t[0] == 'f' then ParseLiteral(t, "false", Bool(false))
    else if t[0] == '"' then
      match ParseChars(t[1..])
      case Some((str, rest)) => Some((Str(str), rest))
      case None => None
    else if t[0] == '-' || IsDigit(t[0]) then ParseNumber(t)
    else None
  }

  /** The elements of an array after its `[`, through its `]`. */
  function ParseArray(s: string): (r: Option<(Value, string)>)
    ensures r.Some? ==> |r.value.1| < |s|
    decreases |s|, 3
  {
    var t := SkipSpace(s);
    if |t| > 0 && t[0] == ']' then Some((Arr([]), t[1..])) else ParseItems(t, [])
  }

  /** One or more comma-separated elements and the closing `]`; `acc` holds
      the elements already read. */
  function ParseItems(s: string, acc: seq<Value>): (r: Option<(Value, string)>)
    ensures r.Some? ==> |r.value.1| < |s|
    decreases |s|, 2
  {
    match ParseValue(s)
    case None => None
    case Some((v, rest)) => ItemsRest(rest, acc + [v])
  }

  /** What follows an element: a `,` and more elements, or the closing `]`. */
  function ItemsRest(s: string, acc: seq<Value>): (r: Option<(Value, string)>)
    ensures r.Some? ==> |r.value.1| < |s|
    decreases |s|, 3
  {
    var w := SkipSpace(s);
    if |w| == 0 then None
    else if w[0] == ',' then ParseItems(w[1..], acc)
    else if w[0] == ']' then Some((Arr(acc), w[1..]))
    else None
  }

  /** The members of an object after its `{`, through its `}`. */
  function ParseObject(s: string): (r: Option<(Value, string)>)
    ensures r.Some? ==> |r.value.1| < |s|
    decreases |s|, 3
  {
    var t := SkipSpace(s);
    if |t| > 0 && t[0] == '}' then Some((Obj([]), t[1..])) else ParseMembers(t, [])
  }

  /** One `"key": value` member, with white space allowed around the `:`. */
  function ParseMember(s: string): (r: Option<((string, Value), string)>)
    ensures r.Some? ==> |r.value.1| < |s|
    decreases |s|, 1
  {
    var t := SkipSpace(s);
    if |t| == 0 || t[0] != '"' then None
    else
      match ParseChars(t[1..])
      case None => None
      case Some((key, rest)) =>
        var u := SkipSpace(rest);
        if |u| == 0 || u[0] != ':' then None
        else
          match ParseValue(u[1..])
          case None => None
          case Some((v, rest2)) => Some(((key, v), rest2))
  }

  /** One or more comma-separated members and the closing `}`; `acc` holds
      the members already read. */
  function ParseMembers(s: string, acc: seq<(string, Value)>): (r: Option<(Value, string)>)
    ensures r.Some? ==> |r.value.1| < |s|
    decreases |s|, 2
  {
    match ParseMember(s)
    case None => None
    case Some((m, rest)) => MembersRest(rest, acc + [m])
  }

  /** What follows a member: a `,` and more members, or the closing `}`. */
  function MembersRest(s: string, acc: seq<(string, Value)>): (r: Option<(Value, string)>)
    ensures r.Some? ==> |r.value.1| < |s|
    decreases |s|, 3
  {
    var w := SkipSpace(s);
    if |w| == 0 then None
    else if w[0] == ',' then ParseMembers(w[1..], acc)
    else if w[0] == '}' then Some((Obj(acc), w[1..]))
    else None
  }

  /** `JSON.parse(text)`: one value surrounded only by white space, or `None`
      where `JSON.parse` throws. */
  function Parse(text: string): Option<Value> {
    match ParseValue(text)
    case Some((v, rest)) => if SkipSpace(rest) == [] then Some(v) else None
    case None => None
  }

  // ---------------------------------------------------------------------------
  // Round trip

  lemma SkipNoSpace(s: string)
    requires s == [] || !IsJsonSpace(s[0])
    ensures SkipSpace(s) == s
  {
  }

  lemma HexRoundTrip(d: nat)
    requires d < 16
    ensures IsHexDigit(HexDigit(d)) && HexValue(HexDigit(d)) == d
  {
  }

  lemma EscapeCharRoundTrip(c: char, tail: string)
    ensures ParseChars(EscapeChar(c) + tail) == Prepend(c, ParseChars(tail))
  {
    var n := c as int;
    if c == '"' || c == '\\' || n == 0x08 || n == 0x0C || n == 0x0A || n == 0x0D || n == 0x09 {
      ShortEscapeRoundTrip(c, tail);
    } else if n < 0x20 {
      UnicodeEscapeRoundTrip(c, tail);
    } else {
      var s := EscapeChar(c) + tail;
      assert s[1..] == tail;
    }
  }

  /** A character written as a backslash and one letter. */
  lemma ShortEscapeRoundTrip(c: char, tail: string)
    requires var n := c as int;
             c == '"' || c == '\\' || n == 0x08 || n == 0x0C || n == 0x0A || n == 0x0D || n == 0x09
    ensures ParseChars(EscapeChar(c) + tail) == Prepend(c, ParseChars(tail))
  {
    var s := EscapeChar(c) + tail;
    assert |EscapeChar(c)| == 2;
    assert s[2..] == tail;
  }

  /** A control character written as `\u00` and two hexadecimal digits. */
  lemma UnicodeEscapeRoundTrip(c: char, tail: string)
    requires var n := c as int;
             n < 0x20 && n != 0x08 && n != 0x0C && n != 0x0A && n != 0x0D && n != 0x09
    ensures ParseChars(EscapeChar(c) + tail) == Prepend(c, ParseChars(tail))
  {
    var n := c as int;
    var e := EscapeChar(c);
    var s := e + tail;
    HexRoundTrip(n / 16);
    HexRoundTrip(n % 16);
    assert s[2..6] == e[2..6];
    assert s[6..] == tail;
    assert Hex4Value(s[2..6]) == n;
    assert UnicodeEscape(s) == Some((c, 6));
  }

  lemma StringRoundTrip(str: string, rest: string)
    ensures ParseChars(Escape(str) + ['"'] + rest) == Some((str, rest))
  {
    if |str| == 0 {
      assert Escape(str) + ['"'] + rest == ['"'] + rest;
    } else {
      var tail := Escape(str[1..]) + ['"'] + rest;
      assert Escape(str) + ['"'] + rest == EscapeChar(str[0]) + tail;
      EscapeCharRoundTrip(str[0], tail);
      StringRoundTrip(str[1..], rest);
      assert [str[0]] + str[1..] == str;
    }
  }

  lemma QuoteRoundTrip(str: string, rest: string)
    ensures |Quote(str) + rest| > 0 && (Quote(str) + rest)[0] == '"'
    ensures ParseChars((Quote(str) + rest)[1..]) == Some((str, rest))
  {
    assert (Quote(str) + rest)[1..] == Escape(str) + ['"'] + rest;
    StringRoundTrip(str, rest);
  }

  lemma NatRoundTrip(n: nat, rest: string)
    requires rest == [] || !IsDigit(rest[0])
    ensures ParseNat(NatToDigits(n) + rest) == Some((n, rest))
  {
    var d := NatToDigits(n);
    var s := d + rest;
    if n >= 1 {
      var k := DigitSpan(s);
      assert s[..|d|] == d;
      assert k == |d|;
      assert s[k..] == rest;
    } else {
      assert s[1..] == rest;
    }
  }

  // How `ParseValue` dispatches on the first character of input that does
  // not start with white space.

  lemma DispatchScalar(s: string)
    requires |s| > 0 && !IsJsonSpace(s[0]) && s[0] != '[' && s[0] != '{'
    ensures ParseValue(s) == ParseScalar(s)
  {
    SkipNoSpace(s);
  }

  lemma DispatchArray(s: string)
    requires |s| > 0 && s[0] == '['
    ensures ParseValue(s) == ParseArray(s[1..])
  {
    SkipNoSpace(s);
  }

  lemma DispatchObject(s: string)
    requires |s| > 0 && s[0] == '{'
    ensures ParseValue(s) == ParseObject(s[1..])
  {
    SkipNoSpace(s);
  }

  lemma {:induction false} RoundTripValue(v: Value, rest: string)
    requires rest == [] || !IsDigit(rest[0])
    ensures ParseValue(Write(v, rest)) == Some((v, rest))
    decreases v, 1
  {
    match v
    case Null => RoundTripLiteral("null", Null, rest);
    case Bool(b) =>
      if b { RoundTripLiteral("true", v, rest); } else { RoundTripLiteral("false", v, rest); }
    case Num(n) => RoundTripNum(n, rest);
    case Str(str) =>
      QuoteRoundTrip(str, rest);
      DispatchScalar(Write(v, rest));
    case Arr(items) => RoundTripArr(items, rest);
    case Obj(ms) => RoundTripObj(ms, rest);
  }

  lemma RoundTripLiteral(word: string, v: Value, rest: string)
    requires (word == "null" && v == Null) || (word == "true" && v == Bool(true)) ||
             (word == "false" && v == Bool(false))
    ensures ParseValue(word + rest) == Some((v, rest))
  {
    var s := word + rest;
    LiteralSlices(word, rest);
    DispatchScalar(s);
    ScalarLiteral(word, v, rest);
  }

  lemma LiteralSlices(word: string, rest: string)
    ensures (word + rest)[..|word|] == word && (word + rest)[|word|..] == rest
  {
  }

  lemma ScalarLiteral(word: string, v: Value, rest: string)
    requires (word == "null" && v == Null) || (word == "true" && v == Bool(true)) ||
             (word == "false" && v == Bool(false))
    requires (word + rest)[..|word|] == word && (word + rest)[|word|..] == rest
    ensures ParseScalar(word + rest) == Some((v, rest))
  {
    assert (word + rest)[0] == word[0];
  }

  lemma RoundTripNum(n: int, rest: string)
    requires rest == [] || !IsDigit(rest[0])
    ensures ParseValue(Write(Num(n), rest)) == Some((Num(n), rest))
  {
    var s := NumberText(n) + rest;
    NumberRoundTrip(n, rest);
    DispatchScalar(s);
    ScalarNumber(s);
  }

  lemma ScalarNumber(t: string)
    requires |t| > 0 && (t[0] == '-' || IsDigit(t[0]))
    ensures ParseScalar(t) == ParseNumber(t)
  {
  }

  lemma NumberRoundTrip(n: int, rest: string)
    requires rest == [] || !IsDigit(rest[0])
    ensures var s := NumberText(n) + rest;
            |s| > 0 && (s[0] == '-' || IsDigit(s[0])) &&
            ParseNumber(s) == Some((Num(n), rest))
  {
    if n < 0 {
      NegativeRoundTrip(n, rest);
    } else {
      var s := NumberText(n) + rest;
      NatRoundTrip(n, rest);
      assert IsDigit(s[0]) by { assert s[0] == NatToDigits(n)[0]; }
    }
  }

  lemma NegativeRoundTrip(n: int, rest: string)
    requires n < 0 && (rest == [] || !IsDigit(rest[0]))
    ensures var s := NumberText(n) + rest;
            |s| > 0 && s[0] == '-' && ParseNumber(s) == Some((Num(n), rest))
  {
    var digits := NatToDigits(-n) + rest;
    assert NumberText(n) + rest == ['-'] + digits;
    NatRoundTrip(-n, rest);
    SignThenNat(digits, -n, rest);
  }

  lemma SignThenNat(digits: string, k: nat, rest: string)
    requires ParseNat(digits) == Some((k, rest))
    ensures ParseNumber(['-'] + digits) == Some((Num(-(k as int)), rest))
  {
    assert (['-'] + digits)[1..] == digits;
  }

  lemma {:induction false} RoundTripArr(items: seq<Value>, rest: string)
    requires rest == [] || !IsDigit(rest[0])
    ensures ParseValue(Write(Arr(items), rest)) == Some((Arr(items), rest))
    decreases items, 3
  {
    var s := Write(Arr(items), rest);
    assert s[1..] == WriteItems(items, rest);
    DispatchArray(s);
    ArrayRoundTrip(items, rest);
  }

  lemma {:induction false} ArrayRoundTrip(items: seq<Value>, rest: string)
    requires rest == [] || !IsDigit(rest[0])
    ensures ParseArray(WriteItems(items, rest)) == Some((Arr(items), rest))
    decreases items, 2
  {
    var inner := WriteItems(items, rest);
    if |items| == 0 {
      SkipBehind(']', rest);
    } else {
      WriteStart(items[0], if |items| == 1 then [']'] + rest else [','] + WriteItems(items[1..], rest));
      ArrayOfItems(inner);
      RoundTripItems(items, [], rest);
      AppendHead([], items);
    }
  }

  lemma ArrayOfItems(s: string)
    requires |s| > 0 && !IsJsonSpace(s[0]) && s[0] != ']'
    ensures ParseArray(s) == ParseItems(s, [])
  {
    SkipNoSpace(s);
  }

  lemma {:induction false} RoundTripObj(ms: seq<(string, Value)>, rest: string)
    requires rest == [] || !IsDigit(rest[0])
    ensures ParseValue(Write(Obj(ms), rest)) == Some((Obj(ms), rest))
    decreases ms, 3
  {
    var s := Write(Obj(ms), rest);
    assert s[1..] == WriteMembers(ms, rest);
    DispatchObject(s);
    ObjectRoundTrip(ms, rest);
  }

  lemma {:induction false} ObjectRoundTrip(ms: seq<(string, Value)>, rest: string)
    requires rest == [] || !IsDigit(rest[0])
    ensures ParseObject(WriteMembers(ms, rest)) == Some((Obj(ms), rest))
    decreases ms, 2
  {
    var inner := WriteMembers(ms, rest);
    if |ms| == 0 {
      SkipBehind('}', rest);
    } else {
      MembersStart(ms, rest);
      ObjectOfMembers(inner);
      RoundTripMembers(ms, [], rest);
      AppendHead([], ms);
    }
  }

  lemma ObjectOfMembers(s: string)
    requires |s| > 0 && s[0] == '"'
    ensures ParseObject(s) == ParseMembers(s, [])
  {
    SkipNoSpace(s);
  }

  /** Written members start with the quote of the first key. */
  lemma MembersStart(ms: seq<(string, Value)>, rest: string)
    requires |ms| > 0
    ensures |WriteMembers(ms, rest)| > 0 && WriteMembers(ms, rest)[0] == '"'
  {
    var after := if |ms| == 1 then ['}'] + rest else [','] + WriteMembers(ms[1..], rest);
    assert WriteMembers(ms, rest) == Quote(ms[0].0) + ([':'] + Write(ms[0].1, after));
  }

  /** What `Write` puts in front of `rest` is never empty and never starts
      with white space or a closing bracket. */
  lemma WriteStart(v: Value, rest: string)
    ensures |Write(v, rest)| > 0
    ensures var c := Write(v, rest)[0]; !IsJsonSpace(c) && c != ']' && c != '}'
  {
    match v
    case Num(n) =>
      if n >= 0 { assert IsDigit(NatToDigits(n)[0]); }
    case _ =>
  }

  /** After the first element, `ParseItems` continues with `ItemsRest`. */
  lemma ItemsThen(whole: string, after: string, acc: seq<Value>, v: Value)
    requires ParseValue(whole) == Some((v, after))
    ensures ParseItems(whole, acc) == ItemsRest(after, acc + [v])
  {
  }

  /** An element followed by `,`: `ParseItems` goes on after the comma. */
  lemma ItemsComma(whole: string, tail: string, acc: seq<Value>, v: Value)
    requires ParseValue(whole) == Some((v, [','] + tail))
    ensures ParseItems(whole, acc) == ParseItems(tail, acc + [v])
  {
    ItemsThen(whole, [','] + tail, acc, v);
    ItemsRestComma(tail, acc + [v]);
  }

  lemma ItemsRestComma(tail: string, acc: seq<Value>)
    ensures ItemsRest([','] + tail, acc) == ParseItems(tail, acc)
  {
    SkipBehind(',', tail);
  }

  /** An element followed by `]`: `ParseItems` ends the array. */
  lemma ItemsClose(whole: string, rest: string, acc: seq<Value>, v: Value)
    requires ParseValue(whole) == Some((v, [']'] + rest))
    ensures ParseItems(whole, acc) == Some((Arr(acc + [v]), rest))
  {
    ItemsThen(whole, [']'] + rest, acc, v);
    ItemsRestClose(rest, acc + [v]);
  }

  lemma ItemsRestClose(rest: string, acc: seq<Value>)
    ensures ItemsRest([']'] + rest, acc) == Some((Arr(acc), rest))
  {
    SkipBehind(']', rest);
  }

  lemma {:induction false} RoundTripItems(items: seq<Value>, acc: seq<Value>, rest: string)
    requires |items| > 0 && (rest == [] || !IsDigit(rest[0]))
    ensures ParseItems(WriteItems(items, rest), acc) == Some((Arr(acc + items), rest))
    decreases items, 1
  {
    if |items| == 1 {
      RoundTripValue(items[0], [']'] + rest);
      LastItem(items, acc, rest);
    } else {
      RoundTripValue(items[0], [','] + WriteItems(items[1..], rest));
      RoundTripItems(items[1..], acc + [items[0]], rest);
      AppendHead(acc, items);
      NextItem(items, acc, rest);
    }
  }

  lemma LastItem(items: seq<Value>, acc: seq<Value>, rest: string)
    requires |items| == 1
    requires ParseValue(Write(items[0], [']'] + rest)) == Some((items[0], [']'] + rest))
    ensures ParseItems(WriteItems(items, rest), acc) == Some((Arr(acc + items), rest))
  {
    ItemsClose(WriteItems(items, rest), rest, acc, items[0]);
    AppendHead(acc, items);
  }

  lemma NextItem(items: seq<Value>, acc: seq<Value>, rest: string)
    requires |items| > 1
    requires var after := [','] + WriteItems(items[1..], rest);
             ParseValue(Write(items[0], after)) == Some((items[0], after))
    requires ParseItems(WriteItems(items[1..], rest), acc + [items[0]]) == Some((Arr(acc + items), rest))
    ensures ParseItems(WriteItems(items, rest), acc) == Some((Arr(acc + items), rest))
  {
    ItemsComma(WriteItems(items, rest), WriteItems(items[1..], rest), acc, items[0]);
  }

  /** One member: the quoted key, a `:`, then the value. */
  lemma MemberStep(s: string, key: string, colon: string, v: Value, after: string)
    requires |s| > 0 && s[0] == '"' && ParseChars(s[1..]) == Some((key, colon))
    requires |colon| > 0 && colon[0] == ':' && ParseValue(colon[1..]) == Some((v, after))
    ensures ParseMember(s) == Some(((key, v), after))
  {
    SkipNoSpace(s);
    SkipNoSpace(colon);
  }

  /** After the first member, `ParseMembers` continues with `MembersRest`. */
  lemma MembersThen(whole: string, after: string, acc: seq<(string, Value)>, m: (string, Value))
    requires ParseMember(whole) == Some((m, after))
    ensures ParseMembers(whole, acc) == MembersRest(after, acc + [m])
  {
  }

  /** A member followed by `,`: `ParseMembers` goes on after the comma. */
  lemma MembersComma(whole: string, tail: string, acc: seq<(string, Value)>, m: (string, Value))
    requires ParseMember(whole) == Some((m, [','] + tail))
    ensures ParseMembers(whole, acc) == ParseMembers(tail, acc + [m])
  {
    MembersThen(whole, [','] + tail, acc, m);
    MembersRestComma(tail, acc + [m]);
  }

  lemma MembersRestComma(tail: string, acc: seq<(string, Value)>)
    ensures MembersRest([','] + tail, acc) == ParseMembers(tail, acc)
  {
    SkipBehind(',', tail);
  }

  /** A member followed by `}`: `ParseMembers` ends the object. */
  lemma MembersClose(whole: string, rest: string, acc: seq<(string, Value)>, m: (string, Value))
    requires ParseMember(whole) == Some((m, ['}'] + rest))
    ensures ParseMembers(whole, acc) == Some((Obj(acc + [m]), rest))
  {
    MembersThen(whole, ['}'] + rest, acc, m);
    MembersRestClose(rest, acc + [m]);
  }

  lemma MembersRestClose(rest: string, acc: seq<(string, Value)>)
    ensures MembersRest(['}'] + rest, acc) == Some((Obj(acc), rest))
  {
    SkipBehind('}', rest);
  }

  lemma {:induction false} RoundTripMember(m: (string, Value), after: string)
    requires after == [] || !IsDigit(after[0])
    ensures ParseMember(WriteMember(m, after)) == Some((m, after))
    decreases m, 0
  {
    var colon := [':'] + Write(m.1, after);
    QuoteRoundTrip(m.0, colon);
    RoundTripValue(m.1, after);
    ColonStep(m, after);
  }

  lemma ColonStep(m: (string, Value), after: string)
    requires var colon := [':'] + Write(m.1, after);
             ParseChars((Quote(m.0) + colon)[1..]) == Some((m.0, colon))
    requires (Quote(m.0) + [':'] + Write(m.1, after))[0] == '"'
    requires ParseValue(Write(m.1, after)) == Some((m.1, after))
    ensures ParseMember(WriteMember(m, after)) == Some((m, after))
  {
    var colon := [':'] + Write(m.1, after);
    assert colon[1..] == Write(m.1, after);
    MemberStep(WriteMember(m, after), m.0, colon, m.1, after);
  }

  lemma {:induction false} RoundTripMembers(ms: seq<(string, Value)>, acc: seq<(string, Value)>, rest: string)
    requires |ms| > 0 && (rest == [] || !IsDigit(rest[0]))
    ensures ParseMembers(WriteMembers(ms, rest), acc) == Some((Obj(acc + ms), rest))
    decreases ms, 1
  {
    if |ms| == 1 {
      RoundTripMember(ms[0], ['}'] + rest);
      LastMember(ms, acc, rest);
    } else {
      RoundTripMember(ms[0], [','] + WriteMembers(ms[1..], rest));
      RoundTripMembers(ms[1..], acc + [ms[0]], rest);
      AppendHead(acc, ms);
      NextMember(ms, acc, rest);
    }
  }

  lemma LastMember(ms: seq<(string, Value)>, acc: seq<(string, Value)>, rest: string)
    requires |ms| == 1
    requires ParseMember(WriteMember(ms[0], ['}'] + rest)) == Some((ms[0], ['}'] + rest))
    ensures ParseMembers(WriteMembers(ms, rest), acc) == Some((Obj(acc + ms), rest))
  {
    MembersClose(WriteMembers(ms, rest), rest, acc, ms[0]);
    AppendHead(acc, ms);
  }

  lemma NextMember(ms: seq<(string, Value)>, acc: seq<(string, Value)>, rest: string)
    requires |ms| > 1
    requires var after := [','] + WriteMembers(ms[1..], rest);
             ParseMember(WriteMember(ms[0], after)) == Some((ms[0], after))
    requires ParseMembers(WriteMembers(ms[1..], rest), acc + [ms[0]]) == Some((Obj(acc + ms), rest))
    ensures ParseMembers(WriteMembers(ms, rest), acc) == Some((Obj(acc + ms), rest))
  {
    MembersComma(WriteMembers(ms, rest), WriteMembers(ms[1..], rest), acc, ms[0]);
  }

  /** `[c] + s` for a character `c` that is not white space: nothing to
      skip, `c` first and `s` behind it. */
  lemma SkipBehind(c: char, s: string)
    requires !IsJsonSpace(c)
    ensures SkipSpace([c] + s) == [c] + s
    ensures ([c] + s)[0] == c && ([c] + s)[1..] == s
  {
  }

  /** Appending a non-empty sequence is appending its head, then its tail. */
  lemma AppendHead<T>(acc: seq<T>, s: seq<T>)
    requires |s| > 0
    ensures acc + [s[0]] + s[1..] == acc + s
    ensures |s| == 1 ==> acc + [s[0]] == acc + s
    ensures [] + s == s
  {
  }

  /** `JSON.parse(JSON.stringify(v))` gives back `v`. */
  lemma RoundTrip(v: Value)
    ensures Parse(Stringify(v)) == Some(v)
  {
    RoundTripValue(v, []);
  }
}
