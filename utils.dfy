/** The validators and list/string helpers of `src/modules/utils.js`: the
    UUID shape check, the find-by-id lookups, the `"a-b"` range parser, the
    upload validators and the path helpers. The locale formatters are not
    part of this model. */
module Utils {
  import opened Wrappers
  import opened JsString
  import opened JsNumber

  // ---------------------------------------------------------------------------
  // UUID shape

  /** The character classes of the UUID regular expression. */
  datatype CharClass = HexChar | Hyphen | VersionChar | VariantChar

  /** A letter as the case-insensitive flag `i` compares it: ASCII letters
      are folded, everything else is compared as it is. */
  function FoldCase(c: char): char {
    if 'A' <= c <= 'Z' then (c as int - 'A' as int + 'a' as int) as char else c
  }

  /** Whether `c` matches a class of `[0-9a-f]`, `-`, `[0-5]` or `[089ab]`
      under the `i` flag. */
  predicate InClass(c: char, k: CharClass) {
    var f := FoldCase(c);
    match k
    case HexChar => IsDigit(f) || 'a' <= f <= 'f'
    case Hyphen => c == '-'
    case VersionChar => '0' <= f <= '5'
    case VariantChar => f in "089ab"
  }

  function Repeat(k: CharClass, n: nat): (r: seq<CharClass>)
    ensures |r| == n && forall i :: 0 <= i < n ==> r[i] == k
  {
    if n == 0 then [] else [k] + Repeat(k, n - 1)
  }

  /** `/^[0-9a-f]{8}-[0-9a-f]{4}-[0-5][0-9a-f]{3}-[089ab][0-9a-f]{3}-[0-9a-f]{12}$/i`:
      an anchored pattern of fixed length, one class per position. */
  function UuidPattern(): seq<CharClass> {
    Repeat(HexChar, 8) + [Hyphen] + Repeat(HexChar, 4) + [Hyphen] +
    [VersionChar] + Repeat(HexChar, 3) + [Hyphen] +
    [VariantChar] + Repeat(HexChar, 3) + [Hyphen] + Repeat(HexChar, 12)
  }

  /** Anchored match of a fixed-length pattern, one character per class. */
  function MatchesAll(s: string, p: seq<CharClass>): (r: bool)
    ensures r <==> |s| == |p| && forall i :: 0 <= i < |s| ==> InClass(s[i], p[i])
  {
    if |s| != |p| then false
    else if |s| == 0 then true
    else
      var r := InClass(s[0], p[0]) && MatchesAll(s[1..], p[1..]);
      assert forall i :: 1 <= i < |s| ==> s[i] == s[1..][i - 1] && p[i] == p[1..][i - 1];
      r
  }

  /** `isValidUuid(uuid)`: `null`/`undefined` do not have length 36. */
  function IsValidUuid(uuid: Option<string>): (r: bool)
    ensures r ==> uuid.Some? && |uuid.value| == 36
  {
    if uuid.None? || |uuid.value| != 36 then false
    else MatchesAll(uuid.value, UuidPattern())
  }

  /** The class the UUID pattern puts at position `i`. */
  function UuidClassAt(i: int): CharClass {
    if i == 8 || i == 13 || i == 18 || i == 23 then Hyphen
    else if i == 14 then VersionChar
    else if i == 19 then VariantChar
    else HexChar
  }

  lemma UuidPatternPositions()
    ensures |UuidPattern()| == 36
    ensures forall i :: 0 <= i < 36 ==> UuidPattern()[i] == UuidClassAt(i)
  {
    var p := UuidPattern();
    forall i | 0 <= i < 36 ensures p[i] == UuidClassAt(i) {
      if i < 8 { assert p[i] == Repeat(HexChar, 8)[i]; }
      else if i == 8 { }
      else if i < 13 { assert p[i] == Repeat(HexChar, 4)[i - 9]; }
      else if i == 13 || i == 14 { }
      else if i < 18 { assert p[i] == Repeat(HexChar, 3)[i - 15]; }
      else if i == 18 || i == 19 { }
      else if i < 23 { assert p[i] == Repeat(HexChar, 3)[i - 20]; }
      else if i == 23 { }
      else { assert p[i] == Repeat(HexChar, 12)[i - 24]; }
    }
  }

  /** The regular expression spelled out position by position: hyphens at
      8, 13, 18 and 23, a version digit 0-5 at 14, a variant digit
      0, 8, 9, a or b (either case) at 19, hexadecimal digits elsewhere. */
  lemma {:induction false} UuidPositions(u: string)
    ensures IsValidUuid(Some(u)) <==>
            |u| == 36 &&
            u[8] == '-' && u[13] == '-' && u[18] == '-' && u[23] == '-' &&
            '0' <= u[14] <= '5' &&
            u[19] in "089abAB" &&
            forall i :: 0 <= i < 36 && i != 8 && i != 13 && i != 14 && i != 18 && i != 19 && i != 23 ==>
                        IsHexDigit(u[i])
  {
    UuidPatternPositions();
    if |u| == 36 {
      var p := UuidPattern();
      assert InClass(u[8], p[8]) <==> u[8] == '-';
      assert InClass(u[13], p[13]) <==> u[13] == '-';
      assert InClass(u[18], p[18]) <==> u[18] == '-';
      assert InClass(u[23], p[23]) <==> u[23] == '-';
      assert InClass(u[14], p[14]) <==> '0' <= u[14] <= '5';
      assert InClass(u[19], p[19]) <==> u[19] in "089abAB";
      forall i | 0 <= i < 36 && p[i] == HexChar
        ensures InClass(u[i], p[i]) <==> IsHexDigit(u[i])
      {
        HexClassFolds(u[i]);
      }
    }
  }

  /** Under the `i` flag `[0-9a-f]` accepts exactly the hexadecimal digits
      of either case. */
  lemma HexClassFolds(c: char)
    ensures InClass(c, HexChar) <==> IsHexDigit(c)
  {
  }

  /** Any other length is refused before the pattern is tried. */
  lemma UuidNeedsLength36(u: Option<string>)
    requires u.None? || |u.value| != 36
    ensures !IsValidUuid(u)
  {
  }

  // ---------------------------------------------------------------------------
  // Find by id

  /** `Array.prototype.findIndex`: the first index whose element satisfies
      `p`, or -1. */
  function FindIndex<T>(s: seq<T>, p: T -> bool): (r: int)
    ensures -1 <= r < |s|
    ensures r >= 0 ==> p(s[r])
    ensures forall i :: 0 <= i < |s| && (r == -1 || i < r) ==> !p(s[i])
  {
    if |s| == 0 then -1
    else if p(s[0]) then 0
    else
      var k := FindIndex(s[1..], p);
      assert forall i :: 1 <= i < |s| ==> s[i] == s[1..][i - 1];
      if k < 0 then -1 else k + 1
  }

  /** `findIdIndex(list, id)`: `list.indexOf(id)` once `list` is an array
      and `id` a valid UUID, else -1. */
  function FindIdIndex(list: Option<seq<string>>, id: Option<string>): (r: int)
    ensures !(list.Some? && IsValidUuid(id)) ==> r == -1
    ensures r == -1 || (0 <= r < |list.value| && list.value[r] == id.value)
    ensures list.Some? && IsValidUuid(id) ==>
              forall i :: 0 <= i < |list.value| && (r == -1 || i < r) ==> list.value[i] != id.value
  {
    if list.None? || !IsValidUuid(id) then -1
    else FindIndex(list.value, (x: string) => x == id.value)
  }

  /** `findIdObjectIndex(list, id)`: the first index whose item's `id` is
      `id`; `idOf` reads an item's `id` member (`None` for `null` items or a
      missing member). */
  function FindIdObjectIndex<T>(list: Option<seq<T>>, id: Option<string>, idOf: T -> Option<string>): (r: int)
    ensures !(list.Some? && IsValidUuid(id)) ==> r == -1
    ensures r == -1 || (0 <= r < |list.value| && idOf(list.value[r]) == id)
    ensures list.Some? && IsValidUuid(id) ==>
              forall i :: 0 <= i < |list.value| && (r == -1 || i < r) ==> idOf(list.value[i]) != id
  {
    if list.None? || !IsValidUuid(id) then -1
    else FindIndex(list.value, (x: T) => idOf(x) == id)
  }

  /** What `findIdItem` returns: `null` for a bad argument, `undefined` when
      no item matches, or the matching item. */
  datatype FindResult<T> = BadArgument | NoMatch | Found(item: T)

  /** `findIdItem(list, id)`: `list.find` returns the first item for which
      the callback's value is truthy, and the callback returns a copy of a
      matching item (always truthy), so the result is the first match. */
  function FindIdItem<T>(list: Option<seq<T>>, id: Option<string>, idOf: T -> Option<string>): (r: FindResult<T>)
    ensures !(list.Some? && IsValidUuid(id)) <==> r == BadArgument
    ensures r.NoMatch? ==> forall i :: 0 <= i < |list.value| ==> idOf(list.value[i]) != id
    ensures r.Found? ==> exists k :: 0 <= k < |list.value| && list.value[k] == r.item && idOf(r.item) == id &&
                           forall i :: 0 <= i < k ==> idOf(list.value[i]) != id
  {
    if list.None? || !IsValidUuid(id) then BadArgument
    else
      var k := FindIndex(list.value, (x: T) => idOf(x) == id);
      if k < 0 then NoMatch else Found(list.value[k])
  }

  /** `findIdItem` finds exactly the item at the index `findIdObjectIndex` reports. */
  lemma FindItemAgreesWithIndex<T>(list: seq<T>, id: Option<string>, idOf: T -> Option<string>)
    requires IsValidUuid(id)
    ensures var k := FindIdObjectIndex(Some(list), id, idOf);
            FindIdItem(Some(list), id, idOf) == if k < 0 then NoMatch else Found(list[k])
  {
  }

  // ---------------------------------------------------------------------------
  // Range lists

  /** `[...new Set(s)]`: the elements in order of first occurrence. */
  function Distinct<T(==,!new)>(s: seq<T>): (r: seq<T>)
    ensures forall x :: x in r <==> x in s
    ensures forall i, j :: 0 <= i < j < |r| ==> r[i] != r[j]
    ensures |r| <= |s|
  {
    if |s| == 0 then []
    else
      var d := Distinct(s[..|s| - 1]);
      assert forall x :: x in s <==> x in s[..|s| - 1] || x == s[|s| - 1];
      if s[|s| - 1] in d then d else d + [s[|s| - 1]]
  }

  /** `Distinct` keeps the order of first occurrence: the distinct elements
      of a prefix are a prefix of the distinct elements of the whole. */
  lemma {:induction false} DistinctPrefix<T(!new)>(s: seq<T>, k: nat)
    requires k <= |s|
    ensures Distinct(s[..k]) <= Distinct(s)
    decreases |s| - k
  {
    if k < |s| {
      var init := s[..|s| - 1];
      assert init[..k] == s[..k];
      DistinctPrefix(init, k);
    } else {
      assert s[..k] == s;
    }
  }

  /** A sequence with no repeated element is its own `Distinct`. */
  lemma {:induction false} DistinctOfDistinct<T(!new)>(s: seq<T>)
    requires forall i, j :: 0 <= i < j < |s| ==> s[i] != s[j]
    ensures Distinct(s) == s
  {
    if |s| > 0 {
      var init := s[..|s| - 1];
      DistinctOfDistinct(init);
      assert s[|s| - 1] !in init;
      assert init + [s[|s| - 1]] == s;
    }
  }

  /** The two pieces of a split: equal pieces collapse into one. */
  lemma DistinctPair(a: string, b: string)
    ensures Distinct([a, b]) == if a == b then [a] else [a, b]
  {
    assert [a, b][..1] == [a];
    assert [a][..0] == [];
  }

  predicate StrictlyIncreasing(s: seq<int>) {
    forall i, j :: 0 <= i < j < |s| ==> s[i] < s[j]
  }

  predicate Ascending(s: seq<int>) {
    forall i, j :: 0 <= i < j < |s| ==> s[i] <= s[j]
  }

  /** `x` placed into an ascending sequence before its first larger element. */
  function Insert(x: int, s: seq<int>): (r: seq<int>)
    requires Ascending(s)
    ensures Ascending(r) && multiset(r) == multiset(s) + multiset{x}
    ensures |r| == |s| + 1 && r[0] == if |s| == 0 || x <= s[0] then x else s[0]
  {
    if |s| == 0 then [x]
    else if x <= s[0] then [x] + s
    else
      var t := Insert(x, s[1..]);
      assert s == [s[0]] + s[1..];
      AscendingCons(s[0], t);
      [s[0]] + t
  }

  lemma AscendingCons(h: int, t: seq<int>)
    requires Ascending(t) && (|t| > 0 ==> h <= t[0])
    ensures Ascending([h] + t)
  {
    var r := [h] + t;
    forall i, j | 0 <= i < j < |r| ensures r[i] <= r[j] {
      if i == 0 { assert t[0] <= t[j - 1]; }
      else { assert r[i] == t[i - 1] && r[j] == t[j - 1]; }
    }
  }

  /** `newList.sort((a, b) => a - b)`: the elements in ascending order. */
  function SortAscending(s: seq<int>): (r: seq<int>)
    ensures Ascending(r) && multiset(r) == multiset(s)
  {
    if |s| == 0 then []
    else
      assert s == s[..|s| - 1] + [s[|s| - 1]];
      Insert(s[|s| - 1], SortAscending(s[..|s| - 1]))
  }

  /** Sorting a sequence that is already increasing changes nothing. */
  lemma {:induction false} SortIncreasing(s: seq<int>)
    requires StrictlyIncreasing(s)
    ensures SortAscending(s) == s
  {
    if |s| > 0 {
      var init := s[..|s| - 1];
      SortIncreasing(init);
      InsertAtEnd(s[|s| - 1], init);
      assert init + [s[|s| - 1]] == s;
    }
  }

  lemma {:induction false} InsertAtEnd(x: int, s: seq<int>)
    requires Ascending(s) && forall i :: 0 <= i < |s| ==> s[i] < x
    ensures Insert(x, s) == s + [x]
  {
    if |s| > 0 {
      InsertAtEnd(x, s[1..]);
      assert [s[0]] + (s[1..] + [x]) == s + [x];
    }
  }

  /** What `rangeToList` reads from its argument: no range, the bounds of a
      range, or bounds written as numbers this model does not track. */
  datatype RangeBounds = NoRange | Bounds(first: nat, last: nat) | Untracked

  /** `(str ?? '').trim()`. */
  function RangeText(str: Option<string>): string {
    Trim(str.GetOr(""))
  }

  /** The early exit: empty, shorter than 3, no `-`, or more than one `-`. */
  predicate RejectsShape(s: string) {
    |s| == 0 || |s| < 3 || IndexOf(s, "-") < 0 || IndexOf(s, "-") != LastIndexOf(s, '-')
  }

  /** `Number(list[k]?.trim())`: a missing piece is `undefined`, which reads
      as `NaN`. The explicit `trim()` is left out because `Number` trims its
      argument anyway (`JsNumber.NumberIgnoresTrim`). */
  function PieceNumber(pieces: seq<string>, k: int): NumberValue {
    if 0 <= k < |pieces| then ToNumber(pieces[k]) else NotANumber
  }

  /** The `NaN` and `first < last` tests on the two numbers read. */
  function BoundsOf(first: NumberValue, last: NumberValue): (r: RangeBounds)
    ensures r.Bounds? ==> first == Integer(r.first) && last == Integer(r.last) && r.first < r.last
    ensures r.NoRange? <==> first.NotANumber? || last.NotANumber? ||
                            (first.Integer? && last.Integer? && first.n >= last.n)
  {
    if first.NotANumber? || last.NotANumber? then NoRange
    else if first.OutsideModel? || last.OutsideModel? then Untracked
    else if first.n < last.n then Bounds(first.n, last.n)
    else NoRange
  }

  /** What `rangeToList` reads from a text that passed its shape checks:
      the split on `-`, the removal of a repeated piece (`new Set`), the
      numbers of the first two pieces and the `NaN` and `first < last`
      tests. */
  function ReadBounds(s: string): (r: RangeBounds)
    ensures r.Bounds? ==> r.first < r.last
  {
    var pieces := Distinct(Split(s, "-"));
    BoundsOf(PieceNumber(pieces, 0), PieceNumber(pieces, 1))
  }

  /** The bounds `rangeToList` loops between. */
  function RangeOf(str: Option<string>): RangeBounds {
    var s := RangeText(str);
    if RejectsShape(s) then NoRange else ReadBounds(s)
  }

  /** `rangeToList(str)`: the numbers from the first bound to the last,
      one apart, or `[]` when there is no range. */
  method RangeToList(str: Option<string>) returns (list: seq<int>)
    requires !RangeOf(str).Untracked?
    ensures RangeOf(str).NoRange? ==> list == []
    ensures RangeOf(str).Bounds? ==>
              |list| == RangeOf(str).last - RangeOf(str).first + 1 &&
              forall k :: 0 <= k < |list| ==> list[k] == RangeOf(str).first + k
  {
    var s := RangeText(str);
    if RejectsShape(s) {
      return [];
    }
    var bounds := ReadBounds(s);
    var newList: seq<int> := [];
    if bounds.Bounds? {
      newList := Enumerate(bounds.first, bounds.last);
    }
    assert StrictlyIncreasing(newList);
    ghost var listed := newList;
    DistinctOfDistinct(newList);
    newList := Distinct(newList);
    SortIncreasing(newList);
    newList := SortAscending(newList);
    assert newList == listed;
    list := newList;
  }

  /** The `for` loop of `rangeToList`: `first`, `first + 1`, ..., `last`. */
  method Enumerate(first: nat, last: nat) returns (list: seq<int>)
    requires first <= last
    ensures |list| == last - first + 1
    ensures forall k :: 0 <= k < |list| ==> list[k] == first + k
  {
    list := [];
    var i: int := first;
    while i <= last
      invariant first <= i <= last + 1
      invariant |list| == i - first
      invariant forall k :: 0 <= k < |list| ==> list[k] == first + k
    {
      list := list + [i];
      i := i + 1;
    }
  }

  /** The early exits of `rangeToList`. */
  lemma ShapeRejected(str: Option<string>)
    requires RejectsShape(RangeText(str))
    ensures RangeOf(str) == NoRange
  {
  }

  /** Two decimal naturals joined by `-`: the bounds are those numbers when
      the first is smaller, and there is no range otherwise (equal pieces
      collapse into one, and a missing second piece is `NaN`). A bound beyond
      the largest safe integer is read as a double this model does not track. */
  lemma DecimalRange(a: nat, b: nat)
    ensures RangeOf(Some(NatToDigits(a) + "-" + NatToDigits(b))) == DecimalBounds(a, b)
  {
    DecimalAccepted(a, b);
    DecimalPieces(a, b);
  }

  /** The bounds of `"a-b"` for two naturals written in decimal. */
  function DecimalBounds(a: nat, b: nat): RangeBounds {
    if a == b then NoRange
    else if a > MaxSafeInteger || b > MaxSafeInteger then Untracked
    else if a < b then Bounds(a, b)
    else NoRange
  }

  lemma DecimalAccepted(a: nat, b: nat)
    ensures var s := NatToDigits(a) + "-" + NatToDigits(b);
            RangeOf(Some(s)) == ReadBounds(s)
  {
    DigitsDashTrimmed(NatToDigits(a), NatToDigits(b));
    SplitAtOnlyDash(NatToDigits(a), NatToDigits(b));
    ShapeAccepted(NatToDigits(a) + "-" + NatToDigits(b));
  }

  lemma DigitsDashTrimmed(da: string, db: string)
    requires |da| > 0 && |db| > 0 && IsDigits(da) && IsDigits(db)
    ensures Trim(da + "-" + db) == da + "-" + db
  {
    var s := da + "-" + db;
    assert s[0] == da[0] && s[|s| - 1] == db[|db| - 1];
    TrimOfTrimmed(s);
  }

  /** The bounds read from the pieces of two decimal naturals. */
  lemma DecimalPieces(a: nat, b: nat)
    ensures ReadBounds(NatToDigits(a) + "-" + NatToDigits(b)) == DecimalBounds(a, b)
  {
    SplitAtOnlyDash(NatToDigits(a), NatToDigits(b));
    PiecesRead(NatToDigits(a) + "-" + NatToDigits(b), [NatToDigits(a), NatToDigits(b)]);
    DigitsPiece(a);
    DigitsPiece(b);
    TwoPieces(NatToDigits(a), NatToDigits(b), a, b);
  }

  /** A natural number's digits read back as that number when it is safe. */
  lemma DigitsPiece(n: nat)
    ensures ToNumber(NatToDigits(n)) == SafeInteger(n)
  {
    TrimOfTrimmed(NatToDigits(n));
  }

  /** The bounds read from two pieces that hold the numbers `a` and `b`. */
  lemma TwoPieces(p: string, q: string, a: nat, b: nat)
    requires ToNumber(p) == SafeInteger(a) && ToNumber(q) == SafeInteger(b)
    requires p == q <==> a == b
    ensures var pieces := Distinct([p, q]);
            BoundsOf(PieceNumber(pieces, 0), PieceNumber(pieces, 1)) == DecimalBounds(a, b)
  {
    DistinctPair(p, q);
    if p == q {
      OnePiece(p, a);
    } else {
      PairOfPieces(p, q, a, b);
    }
  }

  /** A single piece leaves the second bound `NaN`. */
  lemma OnePiece(p: string, a: nat)
    requires ToNumber(p) == SafeInteger(a)
    ensures BoundsOf(PieceNumber([p], 0), PieceNumber([p], 1)) == NoRange
  {
  }

  lemma PairOfPieces(p: string, q: string, a: nat, b: nat)
    requires ToNumber(p) == SafeInteger(a) && ToNumber(q) == SafeInteger(b) && a != b
    ensures BoundsOf(PieceNumber([p, q], 0), PieceNumber([p, q], 1)) == DecimalBounds(a, b)
  {
  }

  /** A text of two digit strings joined by `-` passes the shape checks and
      splits into those two strings. */
  lemma SplitAtOnlyDash(da: string, db: string)
    requires |da| > 0 && |db| > 0 && IsDigits(da) && IsDigits(db)
    ensures var s := da + "-" + db;
            !RejectsShape(s) && Split(s, "-") == [da, db]
  {
    var s := da + "-" + db;
    assert s[|da|] == '-';
    assert forall i :: 0 <= i < |da| ==> s[i] == da[i];
    assert forall i :: |da| < i < |s| ==> s[i] == db[i - |da| - 1];
    assert OccursAt(s, "-", |da|);
    forall i | 0 <= i < |da| ensures !OccursAt(s, "-", i) {
      assert s[i..i + 1] == [s[i]];
    }
    assert IndexOf(s, "-") == |da|;
    assert LastIndexOf(s, '-') == |da|;
    assert s[|da| + 1..] == db;
    assert s[..|da|] == da;
    NoDash(db);
  }

  /** Digits contain no `-`. */
  lemma NoDash(d: string)
    requires IsDigits(d)
    ensures Split(d, "-") == [d]
  {
    forall i | 0 <= i && i + 1 <= |d| ensures !OccursAt(d, "-", i) {
      assert d[i..i + 1] == [d[i]];
    }
    SplitWithoutSeparator(d, "-");
  }

  /** A missing bound before the `-` reads as 0 (`Number('')` is 0), so
      `-b` counts from 0 once it is long enough to pass the length check
      (and `b` is a safe integer). */
  lemma LeadingDashCountsFromZero(b: nat)
    requires b > 0
    ensures |NatToDigits(b)| >= 2 ==> RangeOf(Some("-" + NatToDigits(b))) == DecimalBounds(0, b)
    ensures |NatToDigits(b)| < 2 ==> RangeOf(Some("-" + NatToDigits(b))) == NoRange
  {
    var db := NatToDigits(b);
    if |db| >= 2 {
      LongLeadingDash(db, b);
    } else {
      ShortLeadingDash(db);
    }
  }

  lemma LongLeadingDash(db: string, b: nat)
    requires db == NatToDigits(b) && |db| >= 2 && b > 0
    ensures RangeOf(Some("-" + db)) == DecimalBounds(0, b)
  {
    LeadingAccepted(db);
    LeadingPieces(db, b);
  }

  lemma LeadingAccepted(db: string)
    requires |db| >= 2 && IsDigits(db)
    ensures RangeOf(Some("-" + db)) == ReadBounds("-" + db)
  {
    DashDigitsTrimmed(db);
    SplitLeadingDash(db);
    ShapeAccepted("-" + db);
  }

  /** The bounds read from an empty piece and a decimal natural. */
  lemma LeadingPieces(db: string, b: nat)
    requires db == NatToDigits(b) && |db| >= 2 && b > 0
    ensures ReadBounds("-" + db) == DecimalBounds(0, b)
  {
    SplitLeadingDash(db);
    PiecesRead("-" + db, [[], db]);
    EmptyPiece();
    DigitsPiece(b);
    TwoPieces([], db, 0, b);
  }

  lemma DashDigitsTrimmed(db: string)
    requires |db| > 0 && IsDigits(db)
    ensures Trim("-" + db) == "-" + db
  {
    var s := "-" + db;
    assert s[|s| - 1] == db[|db| - 1];
    TrimOfTrimmed(s);
  }

  /** Texts shorter than 3 are refused. */
  lemma ShortLeadingDash(db: string)
    requires |db| < 2
    ensures RangeOf(Some("-" + db)) == NoRange
  {
    var s := "-" + db;
    assert RejectsShape(RangeText(Some(s)));
  }

  /** `Number('')` is 0. */
  lemma EmptyPiece()
    ensures ToNumber([]) == Integer(0)
  {
    TrimOfTrimmed([]);
  }

  /** A trimmed text that passes the shape checks reads its bounds from its
      pieces. */
  lemma ShapeAccepted(s: string)
    requires Trim(s) == s && !RejectsShape(s)
    ensures RangeOf(Some(s)) == ReadBounds(s)
  {
  }

  lemma PiecesRead(s: string, pieces: seq<string>)
    requires Split(s, "-") == pieces
    ensures ReadBounds(s) == BoundsOf(PieceNumber(Distinct(pieces), 0), PieceNumber(Distinct(pieces), 1))
  {
  }

  /** `-` followed by at least two digits passes the shape checks and splits
      into an empty piece and the digits. */
  lemma SplitLeadingDash(db: string)
    requires |db| >= 2 && IsDigits(db)
    ensures var s := "-" + db;
            !RejectsShape(s) && Split(s, "-") == [[], db]
  {
    var s := "-" + db;
    assert OccursAt(s, "-", 0);
    forall i | 1 <= i < |s| ensures s[i] != '-' {
      assert s[i] == db[i - 1];
    }
    assert s[1..] == db;
    assert s[..0] == [];
    NoDash(db);
  }

  // ---------------------------------------------------------------------------
  // Uploads

  /** `3 * 1024 * 1024` bytes. */
  const MaxFileSize: nat := 3 * 1024 * 1024

  /** The argument of `isValidFileSize` as `typeof` and the comparisons see
      it: something that is not a number, a finite number (fractions
      included), `NaN`, or an infinity. */
  datatype SizeArgument = NotANumberType | Finite(x: real) | NaNValue | Infinity(positive: bool)

  /** `isValidFileSize(size)`: every comparison with `NaN` is false, and an
      infinity is out of range on one side or the other. */
  function IsValidFileSize(size: SizeArgument): (r: bool)
    ensures r <==> size.Finite? && 0.0 < size.x <= 3145728.0
  {
    match size
    case NotANumberType => false
    case NaNValue => false
    case Infinity(_) => false
    case Finite(x) => x > 0.0 && x <= MaxFileSize as real
  }

  /** A fractional size in range passes, a fraction just above the limit
      does not, and neither does `NaN`, an infinity or a non-number. */
  lemma FileSizeEdges()
    ensures IsValidFileSize(Finite(0.5)) && IsValidFileSize(Finite(1024.5))
    ensures !IsValidFileSize(Finite(3145728.5)) && !IsValidFileSize(Finite(0.0))
    ensures !IsValidFileSize(NaNValue) && !IsValidFileSize(Infinity(true)) && !IsValidFileSize(Infinity(false))
    ensures !IsValidFileSize(NotANumberType)
  {
  }

  /** `isValidMimeType(type, allowed)`; `None` is a value that is not a
      string or not an array. */
  function IsValidMimeType(mimeType: Option<string>, allowed: Option<seq<string>>): (r: bool)
    ensures mimeType == Some([]) || allowed == Some([]) ==> !r
    ensures r <==> mimeType.Some? && |mimeType.value| > 0 && allowed.Some? && mimeType.value in allowed.value
  {
    if mimeType.None? || |mimeType.value| < 1 || allowed.None? || |allowed.value| < 1 then false
    else mimeType.value in allowed.value
  }

  /** The argument of `isValidFile`: a browser `File`, or anything else. */
  datatype Upload = NotAFile | File(mimeType: string, size: nat)

  /** `isValidFile(file, allowed)`: a `File` whose type and size both pass. */
  function IsValidFile(file: Upload, allowed: Option<seq<string>>): (r: bool)
    ensures r <==> file.File? && IsValidMimeType(Some(file.mimeType), allowed) && IsValidFileSize(Finite(file.size as real))
    ensures r ==> 0 < file.size <= MaxFileSize && file.mimeType in allowed.value
  {
    file.File? && IsValidMimeType(Some(file.mimeType), allowed) && IsValidFileSize(Finite(file.size as real))
  }

  // ---------------------------------------------------------------------------
  // Paths

  /** `basename(path)`: the text after the last `/`, or `''` for an empty
      or missing path. */
  function Basename(path: Option<string>): (r: string)
    ensures '/' !in r
    ensures |path.GetOr("")| == 0 ==> r == []
    ensures path.Some? ==> |r| <= |path.value| && r == path.value[|path.value| - |r|..] &&
                           (|r| < |path.value| ==> path.value[|path.value| - |r| - 1] == '/')
    ensures path.Some? && '/' !in path.value ==> r == path.value
  {
    if |path.GetOr("")| < 1 then "" else AfterLast(path.value, '/')
  }

  /** The base name of a base name is itself. */
  lemma BasenameIdempotent(path: Option<string>)
    ensures Basename(Some(Basename(path))) == Basename(path)
  {
  }

  /** `extname(path)`: the text after the last `.` of the base name, or the
      whole base name when it has no `.`. */
  function Extname(path: Option<string>): (r: string)
    ensures '.' !in r && '/' !in r
    ensures '.' !in Basename(path) ==> r == Basename(path)
  {
    if |path.GetOr("")| < 1 then ""
    else
      var b := Basename(path);
      SuffixLacks(b, AfterLast(b, '.'), '/');
      AfterLast(b, '.')
  }

  /** The extension ends the base name, right after its last `.`. */
  lemma ExtnameEndsBasename(path: Option<string>)
    ensures var b, r := Basename(path), Extname(path);
            |r| <= |b| && r == b[|b| - |r|..] && (|r| < |b| ==> b[|b| - |r| - 1] == '.')
  {
    var b := Basename(path);
    if |path.GetOr("")| < 1 {
      assert Extname(path) == [] && b == [];
      assert b[|b|..] == [];
    } else {
      assert Extname(path) == AfterLast(b, '.');
    }
  }
}
