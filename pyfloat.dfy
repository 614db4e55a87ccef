/** Python's `float()` applied to a string, with finite values held as exact reals. */
module PyFloat {
  import opened Wrappers
  import opened Text
  import opened Numerals

  /** A Python float: a finite value, an infinity, or NaN. */
  datatype Float = Finite(value: real) | Infinite(negative: bool) | NaN

  predicate IsDigitOrUnderscore(c: char) { IsDigit(c) || c == '_' }

  /** Length of the `digitpart` (a digit, then digits each optionally preceded by one '_')
      that starts `s`; 0 when `s` does not start with a digit. */
  function DigitPartLength(s: string): (n: nat)
    ensures n <= |s|
    ensures forall k :: 0 <= k < n ==> IsDigitOrUnderscore(s[k])
  {
    if s != [] && IsDigit(s[0]) then 1 + DigitPartRest(s[1..]) else 0
  }

  /** Continuation of a digitpart after its first digit. */
  function DigitPartRest(s: string): (n: nat)
    ensures n <= |s|
    ensures forall k :: 0 <= k < n ==> IsDigitOrUnderscore(s[k])
  {
    if s != [] && IsDigit(s[0]) then 1 + DigitPartRest(s[1..])
    else if |s| >= 2 && s[0] == '_' && IsDigit(s[1]) then 2 + DigitPartRest(s[2..])
    else 0
  }

  /** The digits of a digitpart without its underscores. */
  function DropUnderscores(s: string): (r: string)
    requires forall k :: 0 <= k < |s| ==> IsDigitOrUnderscore(s[k])
    ensures AllDigits(r)
    ensures AllDigits(s) ==> r == s
  {
    if s == [] then []
    else
      assert s == [s[0]] + s[1..];
      var head := if s[0] == '_' then [] else [s[0]];
      var tail := DropUnderscores(s[1..]);
      assert IsDigitOrUnderscore(s[0]);
      assert AllDigits(head);
      assert forall k :: 0 <= k < |head + tail| ==> (head + tail)[k] == if k < |head| then head[k] else tail[k - |head|];
      head + tail
  }

  /** The exponent `[eE][+-]?digitpart` that must end a literal; "" stands for exponent 0. */
  function ExponentValue(s: string): Option<int> {
    if s == [] then Some(0)
    else if s[0] != 'e' && s[0] != 'E' then None
    else
      var t := s[1..];
      var signed := t != [] && (t[0] == '+' || t[0] == '-');
      var digits := if signed then t[1..] else t;
      var n := DigitPartLength(digits);
      if n == 0 || n != |digits| then None
      else
        var v: int := NatValue(DropUnderscores(digits));
        Some(if signed && t[0] == '-' then -v else v)
  }

  /** `m` times 10 raised to `e`. */
  function Scaled(m: real, e: int): real
    decreases if e >= 0 then e else -e
  {
    if e == 0 then m else if e > 0 then Scaled(m * 10.0, e - 1) else Scaled(m / 10.0, e + 1)
  }

  /** An unsigned decimal literal: `digitpart ["."]` or `[digitpart] "." digitpart`,
      then an optional exponent, and nothing else. */
  function DecimalLiteral(s: string): Option<real> {
    var a := DigitPartLength(s);
    AfterWholeDigits(s[..a], s[a..])
  }

  /** The rest of a decimal literal once its leading digitpart `whole` (maybe empty) is read:
      an optional '.' with the fraction's digitpart, then the exponent. */
  function AfterWholeDigits(whole: string, rest: string): Option<real>
    requires forall k :: 0 <= k < |whole| ==> IsDigitOrUnderscore(whole[k])
  {
    if rest != [] && rest[0] == '.' then
      var afterDot := rest[1..];
      var b := DigitPartLength(afterDot);
      LiteralValue(whole, afterDot[..b], afterDot[b..])
    else
      LiteralValue(whole, "", rest)
  }

  /** A literal split into its whole digits, its fraction digits and its exponent text;
      at least one of the two digit parts must be present. */
  function LiteralValue(whole: string, fraction: string, exponent: string): Option<real>
    requires forall k :: 0 <= k < |whole| ==> IsDigitOrUnderscore(whole[k])
    requires forall k :: 0 <= k < |fraction| ==> IsDigitOrUnderscore(fraction[k])
  {
    if whole == [] && fraction == [] then None
    else
      match ExponentValue(exponent)
      case None => None
      case Some(e) => Some(Scaled(Mantissa(whole, fraction), e))
  }

  /** `whole.fraction` as an exact real. */
  function Mantissa(whole: string, fraction: string): real
    requires forall k :: 0 <= k < |whole| ==> IsDigitOrUnderscore(whole[k])
    requires forall k :: 0 <= k < |fraction| ==> IsDigitOrUnderscore(fraction[k])
  {
    DigitsValue(DropUnderscores(whole), DropUnderscores(fraction))
  }

  /** The whitespace `float()` ignores around a number: every `str.isspace()` character except
      U+001C to U+001F. CPython turns non-ASCII whitespace into ' ' and keeps ASCII characters as
      they are, and then strips only " \t\n\v\f\r". */
  predicate IsFloatSpace(c: char) {
    IsSpace(c) && !('\U{1C}' <= c <= '\U{1F}')
  }

  /** `float(text)`: None where Python raises ValueError. Surrounding whitespace is ignored,
      a sign is optional, and "inf", "infinity" and "nan" are recognised in any letter case. */
  function ParseFloat(text: string): (r: Option<Float>)
    ensures r.Some? ==> StripWith(text, IsFloatSpace) != []
  {
    var t := StripWith(text, IsFloatSpace);
    if t == [] then None
    else if t[0] == '+' || t[0] == '-' then Unsigned(t[1..], t[0] == '-')
    else Unsigned(t, false)
  }

  /** The text after the optional sign. */
  function Unsigned(body: string, negative: bool): Option<Float> {
    var word := AsciiLower(body);
    if word == "inf" || word == "infinity" then Some(Infinite(negative))
    else if word == "nan" then Some(NaN)
    else
      match DecimalLiteral(body)
      case None => None
      case Some(v) => Some(Finite(if negative then -v else v))
  }

  /** Text that starts with a digit or a '.' is read as a decimal literal, never as a word. */
  lemma UnsignedNumber(body: string, negative: bool)
    requires body != [] && (IsDigit(body[0]) || body[0] == '.')
    ensures Unsigned(body, negative) ==
      match DecimalLiteral(body)
      case None => None
      case Some(v) => Some(Finite(if negative then -v else v))
  {
    assert AsciiLower(body)[0] == body[0];
  }

  /** A run of plain digits is a whole digitpart when what follows cannot extend it. */
  lemma {:induction false} DigitPartRestOfDigits(a: string, rest: string)
    requires AllDigits(a)
    requires rest == [] || !IsDigitOrUnderscore(rest[0])
    ensures DigitPartRest(a + rest) == |a|
  {
    if a == [] {
      assert a + rest == rest;
    } else {
      assert (a + rest)[0] == a[0];
      assert (a + rest)[1..] == a[1..] + rest;
      DigitPartRestOfDigits(a[1..], rest);
    }
  }

  lemma DigitPartOfDigits(a: string, rest: string)
    requires AllDigits(a) && a != []
    requires rest == [] || !IsDigitOrUnderscore(rest[0])
    ensures DigitPartLength(a + rest) == |a|
  {
    assert (a + rest)[0] == a[0];
    assert (a + rest)[1..] == a[1..] + rest;
    DigitPartRestOfDigits(a[1..], rest);
  }

  /** A literal that starts with plain digits followed by something that cannot extend
      them reads those digits as its whole part. */
  lemma DecimalLiteralAfterDigits(c: string, whole: string, rest: string)
    requires c == whole + rest && AllDigits(whole)
    requires rest == [] || !IsDigitOrUnderscore(rest[0])
    ensures DecimalLiteral(c) == AfterWholeDigits(whole, rest)
  {
    assert DigitPartLength(c) == |whole| by {
      if whole != [] {
        DigitPartOfDigits(whole, rest);
      }
    }
    assert c[..|whole|] == whole && c[|whole|..] == rest;
  }

  /** After the whole part, a '.' and plain digits leave no exponent. */
  lemma AfterWholeDigitsDot(whole: string, rest: string, fraction: string)
    requires AllDigits(whole) && AllDigits(fraction)
    requires rest == "." + fraction
    ensures AfterWholeDigits(whole, rest) == LiteralValue(whole, fraction, "")
  {
    assert rest[1..] == fraction;
    assert DigitPartLength(fraction) == |fraction| by {
      if fraction != [] {
        DigitPartOfDigits(fraction, "");
        assert fraction + "" == fraction;
      }
    }
    assert fraction[..|fraction|] == fraction && fraction[|fraction|..] == "";
  }

  /** Without underscores the mantissa is the decimal value of its digits. */
  lemma MantissaOfDigits(whole: string, fraction: string)
    requires AllDigits(whole) && AllDigits(fraction)
    ensures Mantissa(whole, fraction) == DigitsValue(whole, fraction)
  {
    assert DropUnderscores(whole) == whole && DropUnderscores(fraction) == fraction;
  }

  /** Plain digit runs without an exponent: rejected when both are empty, otherwise the
      decimal value `whole.fraction`. */
  lemma LiteralValueOfDigitRuns(whole: string, fraction: string)
    requires AllDigits(whole) && AllDigits(fraction)
    ensures LiteralValue(whole, fraction, "") ==
      if whole == [] && fraction == [] then None
      else Some(DigitsValue(whole, fraction))
  {
    if whole != [] || fraction != [] {
      LiteralWithoutExponent(whole, fraction);
      MantissaOfDigits(whole, fraction);
    }
  }

  /** Digits, a '.', digits: the literal grammar accepts it unless both digit runs are empty. */
  lemma DecimalLiteralWithDot(c: string, whole: string, fraction: string)
    requires AllDigits(whole) && AllDigits(fraction)
    requires c == whole + "." + fraction
    ensures DecimalLiteral(c) ==
      if whole == [] && fraction == [] then None
      else Some(DigitsValue(whole, fraction))
  {
    var rest := "." + fraction;
    assert c == whole + rest;
    DecimalLiteralAfterDigits(c, whole, rest);
    AfterWholeDigitsDot(whole, rest, fraction);
    LiteralValueOfDigitRuns(whole, fraction);
  }

  /** Plain digits with no fraction and no exponent have their natural-number value. */
  lemma LiteralValueOfDigits(c: string)
    requires AllDigits(c) && c != []
    ensures LiteralValue(c, "", "") == Some(DigitsValue(c, ""))
  {
    LiteralValueOfDigitRuns(c, "");
  }

  /** A non-empty run of digits is a literal with its natural-number value. */
  lemma DecimalLiteralOfDigits(c: string)
    requires AllDigits(c) && c != []
    ensures DecimalLiteral(c) == Some(DigitsValue(c, ""))
  {
    LiteralValueOfDigits(c);
    assert c == c + "";
    DecimalLiteralAfterDigits(c, c, "");
  }

  /** A literal without an exponent has the value of its mantissa. */
  lemma LiteralWithoutExponent(whole: string, fraction: string)
    requires forall k :: 0 <= k < |whole| ==> IsDigitOrUnderscore(whole[k])
    requires forall k :: 0 <= k < |fraction| ==> IsDigitOrUnderscore(fraction[k])
    requires whole != [] || fraction != []
    ensures LiteralValue(whole, fraction, "") == Some(Mantissa(whole, fraction))
  {
    assert Scaled(Mantissa(whole, fraction), 0) == Mantissa(whole, fraction);
  }

  /** On text of the shape `\d*\.?\d*`, the literal grammar yields the decimal value,
      except for "." alone, which it rejects. */
  lemma DecimalLiteralOfDecimalText(c: string)
    requires IsDecimalText(c) && c != ""
    ensures DecimalLiteral(c) == if c == "." then None else Some(DecimalValue(c))
  {
    var d := DotIndex(c);
    if d < |c| {
      DecimalLiteralOfDotted(c);
    } else {
      assert c[..d] == c;
      DecimalLiteralOfDigits(c);
    }
  }

  /** Decimal text with a '.' is its digits around that '.'. */
  lemma DottedParts(c: string, whole: string, fraction: string)
    requires IsDecimalText(c) && DotIndex(c) < |c|
    requires whole == c[..DotIndex(c)] && fraction == c[DotIndex(c) + 1..]
    ensures AllDigits(whole) && AllDigits(fraction) && c == whole + "." + fraction
    ensures c == "." <==> whole == [] && fraction == []
    ensures DecimalValue(c) == DigitsValue(whole, fraction)
  {
    SplitAtDot(c, DotIndex(c), whole, fraction);
  }

  /** Text with a '.' at `d` is its part before, the '.', and its part after. */
  lemma SplitAtDot(c: string, d: nat, whole: string, fraction: string)
    requires d < |c| && c[d] == '.' && whole == c[..d] && fraction == c[d + 1..]
    ensures c == whole + "." + fraction
  {
    assert c == c[..d] + [c[d]] + c[d + 1..];
  }

  /** Decimal text with a '.': the value of the digits around it, unless there are none. */
  lemma DecimalLiteralOfDotted(c: string)
    requires IsDecimalText(c) && DotIndex(c) < |c|
    ensures DecimalLiteral(c) == if c == "." then None else Some(DecimalValue(c))
  {
    var d := DotIndex(c);
    var whole, fraction := c[..d], c[d + 1..];
    DottedParts(c, whole, fraction);
    DecimalLiteralWithDot(c, whole, fraction);
  }

  /** Text with no surrounding whitespace and no sign, starting with a digit or a '.',
      is read by the literal grammar alone. */
  lemma ParseFloatOfUnsigned(t: string)
    requires t != [] && (IsDigit(t[0]) || t[0] == '.') && !IsFloatSpace(t[|t| - 1])
    ensures ParseFloat(t) ==
      match DecimalLiteral(t)
      case None => None
      case Some(v) => Some(Finite(v))
  {
    assert !IsFloatSpace(t[0]);
    ParseFloatOfUnpadded(t);
    UnsignedNumber(t, false);
  }

  /** Text already stripped, and without a sign, is read as it stands. */
  lemma ParseFloatOfUnpadded(t: string)
    requires t != [] && !IsFloatSpace(t[0]) && !IsFloatSpace(t[|t| - 1]) && t[0] != '+' && t[0] != '-'
    ensures ParseFloat(t) == Unsigned(t, false)
  {
    assert StripWith(t, IsFloatSpace) == t;
  }

  /** `float()` on decimal text: the exact decimal value, or ValueError for ".". */
  lemma ParseFloatOfDecimalText(c: string)
    requires IsDecimalText(c) && c != ""
    ensures ParseFloat(c) == if c == "." then None else Some(Finite(DecimalValue(c)))
  {
    var d := DotIndex(c);
    assert IsDigit(c[0]) || c[0] == '.' by {
      if d > 0 { assert c[0] == c[..d][0]; }
    }
    assert IsDigit(c[|c| - 1]) || c[|c| - 1] == '.' by {
      if d < |c| - 1 { assert c[|c| - 1] == c[d + 1..][|c| - d - 2]; }
      else if d == |c| { assert c[|c| - 1] == c[..d][|c| - 1]; }
    }
    ParseFloatOfUnsigned(c);
    DecimalLiteralOfDecimalText(c);
  }

  /** `float()` reads back the decimal rendering of a natural number. */
  lemma ParseFloatOfNatToString(n: nat)
    ensures ParseFloat(NatToString(n)) == Some(Finite(n as real))
  {
    var s := NatToString(n);
    DecimalTextOfDigits(s);
    ParseFloatOfDecimalText(s);
    assert s[..|s|] == s;
    DigitsValueOfWhole(s);
    NatValueOfNatToString(n);
  }
}
