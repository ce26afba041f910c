/** JavaScript's `Number(s)` on a string, for the values a range bound can
    take: the text is trimmed; nothing left reads as 0; an optional `+` and
    decimal digits read as that natural number while it is a safe integer
    (at most 2^53 - 1, so every integer up to it and its successor are exact
    doubles); text that is no numeric literal at all reads as `NaN`. Every
    other numeric literal (a larger natural, which `Number` rounds or turns
    into `Infinity`, a sign `-`, a fraction, an exponent, `Infinity`,
    `0x`/`0o`/`0b` integers) yields a floating-point value this model does
    not track. */
module JsNumber {
  import opened JsString

  datatype NumberValue =
    | Integer(n: nat)
    | NotANumber
    | OutsideModel

  /** `Number.MAX_SAFE_INTEGER`, 2^53 - 1. */
  const MaxSafeInteger: nat := 0x1F_FFFF_FFFF_FFFF

  /** The number a decimal natural reads as: itself while it is safe. */
  function SafeInteger(n: nat): (r: NumberValue)
    ensures r.Integer? <==> n <= MaxSafeInteger
    ensures r.Integer? ==> r.n == n
    ensures !r.NotANumber?
  {
    if n <= MaxSafeInteger then Integer(n) else OutsideModel
  }

  /** `0x`/`0X` and hexadecimal digits, and likewise for octal and binary. */
  predicate IsNonDecimalInteger(s: string) {
    |s| >= 3 && s[0] == '0' &&
    ((s[1] in "xX" && forall i :: 2 <= i < |s| ==> IsDigit(s[i]) || 'a' <= s[i] <= 'f' || 'A' <= s[i] <= 'F') ||
     (s[1] in "oO" && forall i :: 2 <= i < |s| ==> '0' <= s[i] <= '7') ||
     (s[1] in "bB" && forall i :: 2 <= i < |s| ==> s[i] == '0' || s[i] == '1'))
  }

  /** An exponent: `e` or `E`, an optional sign, decimal digits. */
  predicate IsExponent(s: string) {
    |s| >= 2 && s[0] in "eE" &&
    var t := if s[1] in "+-" then s[2..] else s[1..];
    |t| > 0 && IsDigits(t)
  }

  /** `digits . digits? exponent?`, `. digits exponent?`, or `digits exponent?`. */
  predicate IsUnsignedDecimal(s: string) {
    s == "Infinity" ||
    exists i, j :: 0 <= i <= j <= |s| && IsMantissa(s[..j], i) && (j == |s| || IsExponent(s[j..]))
  }

  /** `m` is a mantissa whose decimal point (if any) sits at index `i`;
      without a point, `i == |m|`. */
  predicate IsMantissa(m: string, i: int) {
    0 <= i <= |m| && IsDigits(m[..i]) &&
    if i == |m| then i > 0
    else m[i] == '.' && IsDigits(m[i + 1..]) && (i > 0 || i + 1 < |m|)
  }

  /** The ECMAScript StringNumericLiteral grammar on text without leading
      or trailing white space, the empty text excluded. */
  predicate IsNumericLiteral(s: string) {
    IsNonDecimalInteger(s) ||
    IsUnsignedDecimal(s) ||
    (|s| > 0 && s[0] in "+-" && IsUnsignedDecimal(s[1..]))
  }

  /** A natural number written in decimal with an optional `+`. */
  predicate IsPlainNatural(t: string) {
    (|t| > 0 && IsDigits(t)) || (|t| > 1 && t[0] == '+' && IsDigits(t[1..]))
  }

  /** The value of a plain natural, its `+` dropped. */
  function PlainNaturalValue(t: string): nat
    requires IsPlainNatural(t)
  {
    if IsDigits(t) then DigitsValue(t) else DigitsValue(t[1..])
  }

  /** `Number(s)` on a string. */
  function ToNumber(s: string): NumberValue {
    var t := Trim(s);
    if |t| == 0 then Integer(0)
    else if IsDigits(t) then SafeInteger(DigitsValue(t))
    else if |t| > 1 && t[0] == '+' && IsDigits(t[1..]) then SafeInteger(DigitsValue(t[1..]))
    else if IsNumericLiteral(t) then OutsideModel
    else NotANumber
  }

  /** Blank text reads as 0; the result is a natural number exactly for
      blank text and plain naturals up to the largest safe integer, and then
      it is the value the digits denote; it is `NaN` exactly when the
      trimmed text is no numeric literal. */
  lemma ToNumberCases(s: string)
    ensures var r := ToNumber(s);
            (r.Integer? <==> Trim(s) == [] ||
                             (IsPlainNatural(Trim(s)) && PlainNaturalValue(Trim(s)) <= MaxSafeInteger)) &&
            (Trim(s) == [] ==> r == Integer(0)) &&
            (r.Integer? && Trim(s) != [] ==> r.n == PlainNaturalValue(Trim(s))) &&
            (r.NotANumber? <==> Trim(s) != [] && !IsNumericLiteral(Trim(s)))
  {
    var t := Trim(s);
    if IsPlainNatural(t) { PlainNaturalIsLiteral(t); }
  }

  /** Decimal digits, signed with `+` or not, are a numeric literal. */
  lemma PlainNaturalIsLiteral(t: string)
    requires IsPlainNatural(t)
    ensures IsNumericLiteral(t)
  {
    var u := if IsDigits(t) && |t| > 0 then t else t[1..];
    assert u[..|u|] == u;
    assert IsMantissa(u[..|u|], |u|);
    assert IsUnsignedDecimal(u);
  }

  /** A natural number written in plain decimal digits reads back as itself
      when it is safe, and as an untracked double otherwise. */
  lemma ReadsDecimal(n: nat, pad1: string, pad2: string)
    requires AllWhiteSpace(pad1) && AllWhiteSpace(pad2)
    ensures ToNumber(pad1 + NatToDigits(n) + pad2) == SafeInteger(n)
  {
    TrimPadded(pad1, NatToDigits(n), pad2);
  }

  /** `Number` trims its argument itself, so trimming first changes nothing. */
  lemma NumberIgnoresTrim(s: string)
    ensures ToNumber(Trim(s)) == ToNumber(s)
  {
    TrimOfTrimmed(Trim(s));
    SameTrimSameNumber(Trim(s), s);
  }

  lemma SameTrimSameNumber(s: string, u: string)
    requires Trim(s) == Trim(u)
    ensures ToNumber(s) == ToNumber(u)
  {
  }
}
