/** Python's `float(text)` on texts written in positional decimal notation:
    optional surrounding whitespace, an optional sign, digits with at most one
    decimal point, and at least one digit. The value is the exact decimal the
    text denotes (binary rounding is not modelled). */
module Decimal {
  import opened Wrappers
  import opened Strings

  /** `x` divided by ten `k` times: x / 10^k. */
  function Shift(x: real, k: nat): (r: real)
    ensures x >= 0.0 ==> r >= 0.0
  {
    if k == 0 then x else Shift(x, k - 1) / 10.0
  }

  /** The number `whole.fraction` denotes. */
  function LiteralValue(whole: string, fraction: string): (v: real)
    requires AllDigits(whole) && AllDigits(fraction)
    ensures v >= 0.0
  {
    DigitsValue(whole) as real + Shift(DigitsValue(fraction) as real, |fraction|)
  }

  /** An unsigned decimal literal: `123`, `123.45`, `.5` or `5.`. */
  function ParseUnsigned(t: string): (r: Option<real>)
    ensures r.Some? ==> r.value >= 0.0
    ensures r.Some? ==> |t| > 0
  {
    if '.' in t then
      var k := IndexOf(t, '.');
      var whole, fraction := t[..k], t[k + 1..];
      if AllDigits(whole) && AllDigits(fraction) && |whole| + |fraction| > 0
      then Some(LiteralValue(whole, fraction))
      else None
    else if |t| > 0 && AllDigits(t) then Some(DigitsValue(t) as real)
    else None
  }

  function Negate(x: Option<real>): Option<real>
  {
    if x.Some? then Some(-x.value) else None
  }

  /** A decimal literal with an optional leading `-` or `+`. */
  function ParseSigned(t: string): Option<real>
  {
    if |t| > 0 && t[0] == '-' then Negate(ParseUnsigned(t[1..]))
    else if |t| > 0 && t[0] == '+' then ParseUnsigned(t[1..])
    else ParseUnsigned(t)
  }

  lemma ParseSignedMinus(t: string)
    requires |t| > 0 && t[0] == '-'
    ensures ParseSigned(t) == Negate(ParseUnsigned(t[1..]))
  {
  }

  lemma ParseSignedDigit(t: string)
    requires |t| > 0 && IsDigit(t[0])
    ensures ParseSigned(t) == ParseUnsigned(t)
  {
  }

  /** Python's `float(s)`; `None` stands for the `ValueError` it raises. */
  function ParseFloat(s: string): Option<real>
  {
    ParseSigned(Strip(s))
  }

  /** An ASCII character that Python's `float()` accepts nowhere in its
      input: no digit, point, sign, whitespace, `_` (digit grouping), `e`
      or `E` (exponent), and no letter of `nan`, `inf` or `infinity` in
      either case. */
  predicate ForeignToFloat(c: char)
  {
    c < '\U{80}' && !IsDigit(c) && !IsSpace(c) && c !in ".+-_eEnNaAiIfFtTyY"
  }

  /** A foreign character anywhere in the text makes `float()` fail. */
  lemma ParseFloatRejectsForeignChar(s: string, i: nat)
    requires i < |s| && ForeignToFloat(s[i])
    ensures ParseFloat(s) == None
  {
    assert s[i] != '.' && s[i] != '-' && s[i] != '+' && !IsDigit(s[i]) && !IsSpace(s[i]) by {
      assert ForeignToFloat(s[i]);
    }
    var j := StripKeepsChar(s, i);
    SignedRejectsForeignChar(Strip(s), j);
  }

  /** A character that is no digit, point or sign fails the signed literal. */
  lemma SignedRejectsForeignChar(t: string, j: nat)
    requires j < |t| && !IsDigit(t[j]) && t[j] != '.' && t[j] != '-' && t[j] != '+'
    ensures ParseSigned(t) == None
  {
    if t[0] == '-' || t[0] == '+' {
      assert j > 0;
      assert t[1..][j - 1] == t[j];
      UnsignedRejectsForeignChar(t[1..], j - 1);
    } else {
      UnsignedRejectsForeignChar(t, j);
    }
  }

  lemma UnsignedRejectsForeignChar(t: string, j: nat)
    requires j < |t| && !IsDigit(t[j]) && t[j] != '.'
    ensures ParseUnsigned(t) == None
  {
    if '.' in t {
      var k := IndexOf(t, '.');
      if j < k {
        assert t[..k][j] == t[j];
      } else {
        assert t[k + 1..][j - k - 1] == t[j];
      }
    }
  }

  /** An unsigned literal `whole.fraction` denotes whole + fraction / 10^|fraction|. */
  lemma ParseUnsignedLiteral(whole: string, fraction: string)
    requires |whole| > 0 && AllDigits(whole) && AllDigits(fraction)
    ensures ParseUnsigned(whole + "." + fraction) == Some(LiteralValue(whole, fraction))
  {
    var body := whole + "." + fraction;
    assert body[|whole|] == '.';
    assert '.' !in whole;
    IndexOfAfterPrefix(whole, "." + fraction, '.');
    var k := IndexOf(body, '.');
    assert k == |whole|;
    assert body[..k] == whole;
    assert body[k + 1..] == fraction;
    assert AllDigits(body[..k]) && AllDigits(body[k + 1..]);
  }

  /** `x` with the sign a leading `-` gives it. */
  function Signed(negative: bool, x: real): real
  {
    if negative then -x else x
  }

  /** The text `-` for a negative amount, empty otherwise. */
  function SignText(negative: bool): string
  {
    if negative then "-" else ""
  }

  lemma DropSign(t: string)
    ensures ("-" + t)[1..] == t
  {
  }

  lemma NegativeLiteral(whole: string, fraction: string)
    requires |whole| > 0 && AllDigits(whole) && AllDigits(fraction)
    ensures ParseSigned("-" + (whole + "." + fraction)) == Some(Signed(true, LiteralValue(whole, fraction)))
  {
    ParseUnsignedLiteral(whole, fraction);
    ReadNegative(whole + "." + fraction, LiteralValue(whole, fraction));
  }

  /** A `-` in front of an unsigned literal negates it. */
  lemma ReadNegative(t: string, x: real)
    requires ParseUnsigned(t) == Some(x)
    ensures ParseSigned("-" + t) == Some(Signed(true, x))
  {
    DropSign(t);
    ParseSignedMinus("-" + t);
  }

  lemma PositiveLiteral(whole: string, fraction: string)
    requires |whole| > 0 && AllDigits(whole) && AllDigits(fraction)
    ensures ParseSigned(whole + "." + fraction) == Some(Signed(false, LiteralValue(whole, fraction)))
  {
    ParseUnsignedLiteral(whole, fraction);
    ParseSignedDigit(whole + "." + fraction);
  }

  /** `float()` reads a text that spells a signed decimal literal
      `[-]whole.fraction` as the number it denotes. */
  lemma ParseFloatLiteral(text: string, negative: bool, whole: string, fraction: string)
    requires |whole| > 0 && |fraction| > 0 && AllDigits(whole) && AllDigits(fraction)
    requires text == SignText(negative) + whole + "." + fraction
    ensures ParseFloat(text) == Some(Signed(negative, LiteralValue(whole, fraction)))
  {
    var body := whole + "." + fraction;
    assert text == SignText(negative) + body;
    LiteralEdges(text, negative, whole, fraction);
    StripUnchanged(text);
    if negative {
      assert text == "-" + body;
      NegativeLiteral(whole, fraction);
    } else {
      assert text == body;
      PositiveLiteral(whole, fraction);
    }
  }

  /** A literal starts with its sign or a digit and ends with a digit. */
  lemma LiteralEdges(text: string, negative: bool, whole: string, fraction: string)
    requires |whole| > 0 && |fraction| > 0 && AllDigits(whole) && AllDigits(fraction)
    requires text == SignText(negative) + whole + "." + fraction
    ensures |text| > 0 && !IsSpace(text[0]) && !IsSpace(text[|text| - 1])
  {
    assert text[|text| - 1] == fraction[|fraction| - 1];
    assert negative ==> text[0] == '-';
    assert !negative ==> text[0] == whole[0];
  }
}
