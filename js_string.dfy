/** The JavaScript string operations the front-end relies on, on strings as
    sequences of characters: `trim`, `indexOf`, `lastIndexOf`, `includes`,
    `split` with a string separator, `substring`, and decimal digit strings. */
module JsString {

  /** A character that `String.prototype.trim` removes: the ECMAScript
      WhiteSpace and LineTerminator code points. */
  predicate IsWhiteSpace(c: char) {
    var n := c as int;
    if n < 0xA0 then n == 0x20 || 0x09 <= n <= 0x0D
    else n == 0xA0 || n == 0x1680 || (0x2000 <= n <= 0x200A) || n == 0x2028 ||
         n == 0x2029 || n == 0x202F || n == 0x205F || n == 0x3000 || n == 0xFEFF
  }

  predicate AllWhiteSpace(s: string) {
    forall i :: 0 <= i < |s| ==> IsWhiteSpace(s[i])
  }

  /** `s.trimStart()`: the longest suffix of `s` that does not start with white space. */
  function TrimStart(s: string): (r: string)
    ensures |r| <= |s| && r == s[|s| - |r|..]
    ensures r == [] || !IsWhiteSpace(r[0])
    ensures AllWhiteSpace(s[..|s| - |r|])
  {
    if |s| > 0 && IsWhiteSpace(s[0]) then
      var r := TrimStart(s[1..]);
      assert s[..|s| - |r|] == [s[0]] + s[1..][..|s| - 1 - |r|];
      r
    else s
  }

  /** `s.trimEnd()`: the longest prefix of `s` that does not end with white space. */
  function TrimEnd(s: string): (r: string)
    ensures |r| <= |s| && r == s[..|r|]
    ensures r == [] || !IsWhiteSpace(r[|r| - 1])
    ensures AllWhiteSpace(s[|r|..])
  {
    if |s| > 0 && IsWhiteSpace(s[|s| - 1]) then
      var r := TrimEnd(s[..|s| - 1]);
      assert s[|r|..] == s[..|s| - 1][|r|..] + [s[|s| - 1]];
      r
    else s
  }

  /** `s.trim()`: `s` without its leading and trailing white space. */
  function Trim(s: string): (r: string)
    ensures exists i, j :: 0 <= i <= j <= |s| && r == s[i..j] &&
                           AllWhiteSpace(s[..i]) && AllWhiteSpace(s[j..])
    ensures r == [] || (!IsWhiteSpace(r[0]) && !IsWhiteSpace(r[|r| - 1]))
  {
    var t := TrimStart(s);
    var r := TrimEnd(t);
    TrimIsInfix(s, t, r);
    PrefixStartsAlike(t, r);
    r
  }

  lemma PrefixStartsAlike(t: string, r: string)
    requires |r| <= |t| && r == t[..|r|]
    ensures r != [] ==> r[0] == t[0]
  {
  }

  /** `r` is a prefix, followed only by white space, of a suffix `t` of
      `s` that only white space precedes. */
  lemma TrimIsInfix(s: string, t: string, r: string)
    requires |t| <= |s| && t == s[|s| - |t|..] && AllWhiteSpace(s[..|s| - |t|])
    requires |r| <= |t| && r == t[..|r|] && AllWhiteSpace(t[|r|..])
    ensures exists i, j :: 0 <= i <= j <= |s| && r == s[i..j] &&
                           AllWhiteSpace(s[..i]) && AllWhiteSpace(s[j..])
  {
    var i := |s| - |t|;
    var j := i + |r|;
    assert s[i..] == t;
    assert r == s[i..j] by { assert t[..|r|] == s[i..j]; }
    assert AllWhiteSpace(s[j..]) by { assert s[j..] == t[|r|..]; }
    assert AllWhiteSpace(s[..i]);
  }

  /** A string trims to nothing exactly when all of it is white space. */
  lemma TrimEmptyIff(s: string)
    ensures Trim(s) == [] <==> AllWhiteSpace(s)
  {
    var t := TrimStart(s);
    if Trim(s) == [] {
      assert s == s[..|s| - |t|] + t;
      assert AllWhiteSpace(t[|TrimEnd(t)|..]);
    }
  }

  /** Trimming a string that already has no white space at either end changes nothing. */
  lemma TrimOfTrimmed(s: string)
    requires s == [] || (!IsWhiteSpace(s[0]) && !IsWhiteSpace(s[|s| - 1]))
    ensures Trim(s) == s
  {
  }

  /** Trimming white space off both ends of `pad1 + t + pad2` leaves `t`
      when `t` neither starts nor ends with white space. */
  lemma TrimPadded(pad1: string, t: string, pad2: string)
    requires AllWhiteSpace(pad1) && AllWhiteSpace(pad2)
    requires |t| > 0 && !IsWhiteSpace(t[0]) && !IsWhiteSpace(t[|t| - 1])
    ensures Trim(pad1 + t + pad2) == t
  {
    assert pad1 + t + pad2 == pad1 + (t + pad2);
    TrimStartPadded(pad1, t + pad2);
    TrimEndPadded(t, pad2);
  }

  lemma {:induction false} TrimStartPadded(pad: string, u: string)
    requires AllWhiteSpace(pad) && |u| > 0 && !IsWhiteSpace(u[0])
    ensures TrimStart(pad + u) == u
  {
    if |pad| == 0 {
      assert pad + u == u;
    } else {
      assert (pad + u)[1..] == pad[1..] + u;
      TrimStartPadded(pad[1..], u);
    }
  }

  lemma {:induction false} TrimEndPadded(u: string, pad: string)
    requires AllWhiteSpace(pad) && |u| > 0 && !IsWhiteSpace(u[|u| - 1])
    ensures TrimEnd(u + pad) == u
  {
    if |pad| == 0 {
      assert u + pad == u;
    } else {
      var s := u + pad;
      assert s[..|s| - 1] == u + pad[..|pad| - 1];
      TrimEndPadded(u, pad[..|pad| - 1]);
    }
  }

  // ---------------------------------------------------------------------------
  // Searching

  /** `t` occurs in `s` starting at index `i`. */
  predicate OccursAt(s: string, t: string, i: int) {
    0 <= i && i + |t| <= |s| && s[i..i + |t|] == t
  }

  /** The first index at or after `from` where `t` occurs in `s`, or -1. */
  function IndexOfFrom(s: string, t: string, from: nat): (r: int)
    ensures r == -1 || (from <= r && OccursAt(s, t, r))
    ensures forall i :: from <= i && (r == -1 || i < r) ==> !OccursAt(s, t, i)
    decreases |s| + 1 - from
  {
    if from + |t| > |s| then -1
    else if s[from..from + |t|] == t then from
    else IndexOfFrom(s, t, from + 1)
  }

  /** `s.indexOf(t)`: the first index where `t` occurs in `s`, or -1. */
  function IndexOf(s: string, t: string): (r: int)
    ensures r == -1 || OccursAt(s, t, r)
    ensures forall i :: 0 <= i && (r == -1 || i < r) ==> !OccursAt(s, t, i)
  {
    IndexOfFrom(s, t, 0)
  }

  /** `s.includes(t)`. */
  predicate Includes(s: string, t: string) {
    IndexOf(s, t) >= 0
  }

  /** A one-character search finds nothing exactly when the character is absent. */
  lemma IndexOfCharAbsent(s: string, c: char)
    ensures IndexOf(s, [c]) == -1 <==> c !in s
  {
    var k := IndexOf(s, [c]);
    if c in s {
      var i :| 0 <= i < |s| && s[i] == c;
      assert OccursAt(s, [c], i);
    }
    if k >= 0 {
      assert s[k..k + 1] == [c];
      assert s[k] == c;
    }
  }

  /** `s.lastIndexOf(c)` for a one-character argument: the last index holding `c`, or -1. */
  function LastIndexOf(s: string, c: char): (r: int)
    ensures -1 <= r < |s|
    ensures r >= 0 ==> s[r] == c
    ensures forall i :: r < i < |s| ==> s[i] != c
  {
    if |s| == 0 then -1
    else if s[|s| - 1] == c then |s| - 1
    else LastIndexOf(s[..|s| - 1], c)
  }

  /** The first and the last occurrence of a character coincide exactly
      when it occurs at most once. */
  lemma FirstIsLastIff(s: string, c: char)
    ensures IndexOf(s, [c]) == LastIndexOf(s, c) <==>
            forall i, j :: 0 <= i < j < |s| && s[i] == c ==> s[j] != c
  {
    var k := IndexOf(s, [c]);
    IndexOfCharAbsent(s, c);
    if k >= 0 {
      assert s[k] == c by { assert s[k..k + 1] == [c]; }
      forall i | 0 <= i < k ensures s[i] != c {
        assert !OccursAt(s, [c], i);
        assert s[i..i + 1] == [s[i]];
      }
    }
  }

  // ---------------------------------------------------------------------------
  // Splitting and joining

  /** The inverse of `Split`: the parts glued together with `sep` between them. */
  function Join(parts: seq<string>, sep: string): string
    requires |parts| >= 1
  {
    if |parts| == 1 then parts[0] else parts[0] + sep + Join(parts[1..], sep)
  }

  /** `s.split(sep)` for a non-empty separator: the maximal pieces between
      successive non-overlapping occurrences of `sep`, scanning left to right. */
  function Split(s: string, sep: string): (parts: seq<string>)
    requires |sep| > 0
    ensures |parts| >= 1
    ensures Join(parts, sep) == s
    ensures forall k :: 0 <= k < |parts| ==> IndexOf(parts[k], sep) == -1
    decreases |s|
  {
    var k := IndexOf(s, sep);
    if k < 0 then [s]
    else
      var head := s[..k];
      var tail := Split(s[k + |sep|..], sep);
      NoOccurrenceBefore(s, sep, k);
      SplitStep(s, sep, k, tail);
      [head] + tail
  }

  /** One step of `Split`: the piece before the first separator, then the
      pieces of what follows it. */
  lemma SplitStep(s: string, sep: string, k: int, tail: seq<string>)
    requires 0 <= k && k + |sep| <= |s| && s[k..k + |sep|] == sep
    requires |tail| >= 1 && Join(tail, sep) == s[k + |sep|..]
    requires IndexOf(s[..k], sep) == -1
    requires forall j :: 0 <= j < |tail| ==> IndexOf(tail[j], sep) == -1
    ensures Join([s[..k]] + tail, sep) == s
    ensures forall j :: 0 <= j < |[s[..k]] + tail| ==> IndexOf(([s[..k]] + tail)[j], sep) == -1
  {
    JoinAround(s, sep, k, tail);
    PiecesLackSeparator(s[..k], tail, sep);
  }

  lemma JoinAround(s: string, sep: string, k: int, tail: seq<string>)
    requires 0 <= k && k + |sep| <= |s| && s[k..k + |sep|] == sep
    requires |tail| >= 1 && Join(tail, sep) == s[k + |sep|..]
    ensures Join([s[..k]] + tail, sep) == s
  {
    JoinStep(s[..k], sep, tail);
    SplitAround(s, sep, k);
  }

  lemma SplitAround(s: string, sep: string, k: int)
    requires 0 <= k && k + |sep| <= |s| && s[k..k + |sep|] == sep
    ensures s == s[..k] + sep + s[k + |sep|..]
  {
    assert s == s[..k] + s[k..];
    assert s[k..] == s[k..k + |sep|] + s[k + |sep|..];
  }

  lemma PiecesLackSeparator(head: string, tail: seq<string>, sep: string)
    requires IndexOf(head, sep) == -1
    requires forall j :: 0 <= j < |tail| ==> IndexOf(tail[j], sep) == -1
    ensures forall j :: 0 <= j < |[head] + tail| ==> IndexOf(([head] + tail)[j], sep) == -1
  {
    var parts := [head] + tail;
    forall j | 0 <= j < |parts| ensures IndexOf(parts[j], sep) == -1 {
      if j > 0 {
        assert parts[j] == tail[j - 1];
      }
    }
  }

  lemma JoinStep(head: string, sep: string, tail: seq<string>)
    requires |tail| >= 1
    ensures Join([head] + tail, sep) == head + sep + Join(tail, sep)
  {
    assert ([head] + tail)[1..] == tail;
  }

  /** No occurrence of `t` in `s` before index `k` means none in `s[..k]`. */
  lemma NoOccurrenceBefore(s: string, t: string, k: int)
    requires 0 <= k <= |s| && |t| > 0
    requires forall i :: 0 <= i < k ==> !OccursAt(s, t, i)
    ensures IndexOf(s[..k], t) == -1
  {
    var p := s[..k];
    if IndexOf(p, t) != -1 {
      var i := IndexOf(p, t);
      assert p[i..i + |t|] == s[i..i + |t|];
      assert OccursAt(s, t, i);
    }
  }

  /** A string with no occurrence of the separator splits into itself alone. */
  lemma SplitWithoutSeparator(s: string, sep: string)
    requires |sep| > 0 && IndexOf(s, sep) == -1
    ensures Split(s, sep) == [s]
  {
  }

  /** The first piece is the text before the first separator (all of `s`
      when there is none), and a second piece exists exactly when the
      separator occurs; it starts right after that first occurrence. */
  lemma SplitFront(s: string, sep: string)
    requires |sep| > 0
    ensures Split(s, sep)[0] == if IndexOf(s, sep) < 0 then s else s[..IndexOf(s, sep)]
    ensures |Split(s, sep)| >= 2 <==> IndexOf(s, sep) >= 0
    ensures IndexOf(s, sep) >= 0 ==> Split(s, sep)[1] == Split(s[IndexOf(s, sep) + |sep|..], sep)[0]
  {
  }

  /** Finding `t + u` means finding `t` there too. */
  lemma IncludesPrefix(s: string, t: string, u: string)
    requires Includes(s, t + u)
    ensures Includes(s, t)
  {
    var i := IndexOf(s, t + u);
    assert s[i..i + |t|] == (t + u)[..|t|] == t;
    assert OccursAt(s, t, i);
  }

  /** The last piece of a split (what `split(sep).reverse()[0]` yields). */
  function LastPart(s: string, sep: string): (r: string)
    requires |sep| > 0
    ensures IndexOf(r, sep) == -1
    ensures |r| <= |s| && r == s[|s| - |r|..]
    ensures |r| < |s| ==> |r| + |sep| <= |s| && s[|s| - |r| - |sep|..|s| - |r|] == sep
  {
    var parts := Split(s, sep);
    LastOfJoin(s, parts, sep);
    parts[|parts| - 1]
  }

  /** The last part ends the text the parts join into, right after a
      separator unless it is the whole text. */
  lemma LastOfJoin(s: string, parts: seq<string>, sep: string)
    requires |parts| >= 1 && Join(parts, sep) == s
    ensures var r := parts[|parts| - 1];
            |r| <= |s| && r == s[|s| - |r|..] &&
            (|r| < |s| ==> |r| + |sep| <= |s| && s[|s| - |r| - |sep|..|s| - |r|] == sep)
  {
    JoinEndsWithLast(parts, sep);
  }

  /** `s.split(c).reverse()[0]` for one character `c`: the text after the
      last `c`, or all of `s` when `c` does not occur. */
  function AfterLast(s: string, c: char): (r: string)
    ensures c !in r && |r| <= |s| && r == s[|s| - |r|..]
    ensures |r| < |s| ==> s[|s| - |r| - 1] == c
    ensures c !in s ==> r == s
  {
    var r := LastPart(s, [c]);
    IndexOfCharAbsent(r, c);
    if |r| < |s| then
      OneCharSlice(s, |s| - |r| - 1, c);
      r
    else
      assert r == s;
      r
  }

  /** A character absent from a text is absent from its suffixes. */
  lemma SuffixLacks(s: string, r: string, d: char)
    requires |r| <= |s| && r == s[|s| - |r|..] && d !in s
    ensures d !in r
  {
    forall i | 0 <= i < |r| ensures r[i] != d {
      assert r[i] == s[|s| - |r| + i];
    }
  }

  lemma OneCharSlice(s: string, i: int, c: char)
    requires 0 <= i < |s| && s[i..i + 1] == [c]
    ensures s[i] == c
  {
    assert s[i..i + 1][0] == s[i];
  }

  /** The last part ends the joined text, with `sep` before it when there
      is more than one part. */
  lemma {:induction false} JoinEndsWithLast(parts: seq<string>, sep: string)
    requires |parts| >= 1
    ensures var j, l := Join(parts, sep), parts[|parts| - 1];
            |l| <= |j| && j[|j| - |l|..] == l &&
            (|parts| > 1 ==> |l| + |sep| <= |j| && j[|j| - |l| - |sep|..|j| - |l|] == sep) &&
            (|parts| == 1 ==> j == l)
  {
    if |parts| > 1 {
      var rest := parts[1..];
      JoinEndsWithLast(rest, sep);
      var j, j', l := Join(parts, sep), Join(rest, sep), parts[|parts| - 1];
      assert rest[|rest| - 1] == l;
      assert j == parts[0] + sep + j';
      assert j[|j| - |j'|..] == j';
      assert j[|j| - |l|..] == j'[|j'| - |l|..];
      if |rest| > 1 {
        assert j[|j| - |l| - |sep|..|j| - |l|] == j'[|j'| - |l| - |sep|..|j'| - |l|];
      } else {
        assert j' == l;
        assert j[|j| - |l| - |sep|..|j| - |l|] == sep;
      }
    }
  }

  /** JavaScript `s.substring(start, end)`: both bounds are clamped to
      `0..|s|` and swapped when out of order. */
  function Substring(s: string, start: int, end: int): (r: string)
    ensures |r| <= |s|
    ensures 0 <= start <= end <= |s| ==> r == s[start..end]
    ensures start <= 0 && end <= 0 ==> r == []
  {
    var a := if start < 0 then 0 else if start > |s| then |s| else start;
    var b := if end < 0 then 0 else if end > |s| then |s| else end;
    if a <= b then s[a..b] else s[b..a]
  }

  // ---------------------------------------------------------------------------
  // Decimal digits

  predicate IsDigit(c: char) {
    '0' <= c <= '9'
  }

  /** A hexadecimal digit in either case. */
  predicate IsHexDigit(c: char) {
    IsDigit(c) || 'a' <= c <= 'f' || 'A' <= c <= 'F'
  }

  /** Every character is a decimal digit (the empty string qualifies). */
  predicate IsDigits(s: string) {
    forall i :: 0 <= i < |s| ==> IsDigit(s[i])
  }

  function DigitValue(c: char): (d: nat)
    requires IsDigit(c)
    ensures d < 10
  {
    c as int - '0' as int
  }

  function DigitChar(d: nat): (c: char)
    requires d < 10
    ensures IsDigit(c) && DigitValue(c) == d
  {
    ('0' as int + d) as char
  }

  /** The value of a string of decimal digits, read most significant first;
      leading zeros are allowed. */
  function DigitsValue(s: string): nat
    requires IsDigits(s)
  {
    if |s| == 0 then 0 else DigitsValue(s[..|s| - 1]) * 10 + DigitValue(s[|s| - 1])
  }

  /** The shortest decimal representation of `n`; reading it back gives `n`. */
  function NatToDigits(n: nat): (s: string)
    ensures |s| >= 1 && IsDigits(s)
    ensures DigitsValue(s) == n
    ensures n >= 1 ==> s[0] != '0'
    ensures n == 0 ==> s == "0"
  {
    if n < 10 then [DigitChar(n)]
    else
      var p := NatToDigits(n / 10);
      var s := p + [DigitChar(n % 10)];
      assert s[..|s| - 1] == p;
      s
  }
}
