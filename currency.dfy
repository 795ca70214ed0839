/** Brazilian currency text, as both dashboards read and write it.

    Reading: the text loses every `R$`, every space and every `.` (the
    thousands separator), then `,` (the decimal separator) becomes `.`, and
    the result goes to `float()`.

    Writing (the fallback used when the locale formatter fails): Python's
    `f'R$ {v:,.2f}'` writes `,` between groups of three integer digits and `.`
    before the two decimals; the two separators are then swapped through a
    placeholder character. Amounts to be written are whole numbers of cents. */
module Currency {
  import opened Wrappers
  import opened Strings
  import opened Decimal

  /** The cleaning chain `.replace('R$', '').replace(' ', '').replace('.', '').replace(',', '.')`. */
  function Normalize(s: string): string
  {
    ReplaceAll(ReplaceAll(ReplaceAll(ReplaceAll(s, "R$", ""), " ", ""), ".", ""), ",", ".")
  }

  /** After the cleaning chain no space and no comma is left, and every point
      stands where the text had a comma. */
  lemma NormalizeLeaves(s: string)
    ensures ' ' !in Normalize(s) && ',' !in Normalize(s)
  {
    var noMarker := ReplaceAll(s, "R$", "");
    var noSpace := ReplaceAll(noMarker, " ", "");
    var noPoint := ReplaceAll(noSpace, ".", "");
    RemoveCharLeavesNone(noMarker, ' ');
    RemoveCharLeavesNone(noSpace, '.');
    ReplaceCharPointwise(noPoint, ',', '.');
  }

  /** Every character of `s` is a digit or `sep`. */
  predicate DigitsOr(s: string, sep: char)
  {
    forall i :: 0 <= i < |s| ==> s[i] == sep || IsDigit(s[i])
  }

  /** `digits` with `sep` between groups of three, counted from the right. */
  function Group(digits: string, sep: char): (r: string)
    requires AllDigits(digits)
    ensures |digits| > 0 ==> |r| > 0 && IsDigit(r[0]) && IsDigit(r[|r| - 1])
    ensures DigitsOr(r, sep)
    decreases |digits|
  {
    if |digits| <= 3 then digits
    else Group(digits[..|digits| - 3], sep) + [sep] + digits[|digits| - 3..]
  }

  /** Two decimal places of an amount. */
  type Hundredths = n: nat | n < 100

  /** An amount as the two-decimal formatter sees it once rounded: its sign,
      its whole units and its hundredths. */
  datatype Amount = Amount(negative: bool, units: nat, hundredths: Hundredths)

  /** The number an amount stands for. */
  function Value(m: Amount): real
  {
    Signed(m.negative, m.units as real + m.hundredths as real / 100.0)
  }

  /** Python's `f'{v:,.2f}'`: the sign, the units grouped by `,` and two
      decimals after `.`. */
  function FormatGrouped(m: Amount): string
  {
    SignText(m.negative) + Group(NatToString(m.units), ',') + "." + FixedDigits(m.hundredths, 2)
  }

  /** `s.replace(',', p).replace('.', ',').replace(p, '.')`. */
  function SwapSeparators(s: string, placeholder: char): string
  {
    ReplaceAll(ReplaceAll(ReplaceAll(s, ",", [placeholder]), ".", ","), [placeholder], ".")
  }

  /** The Brazilian notation written out directly: `R$ `, the sign, the
      integer part with `.` between groups of three digits, `,` and exactly two
      decimals. */
  function BrazilianText(m: Amount): string
  {
    "R$ " + SignText(m.negative) + Group(NatToString(m.units), '.') + "," + FixedDigits(m.hundredths, 2)
  }

  /** The character map that exchanges `,` and `.`. */
  function SwapChar(c: char): char
  {
    if c == ',' then '.' else if c == '.' then ',' else c
  }

  function SwapAll(s: string): (r: string)
    ensures |r| == |s|
  {
    seq(|s|, i requires 0 <= i < |s| => SwapChar(s[i]))
  }

  lemma SwapAppend(a: string, b: string)
    ensures SwapAll(a + b) == SwapAll(a) + SwapAll(b)
  {
  }

  /** A text without separators is left alone by the exchange. */
  lemma SwapNoSeparators(s: string)
    requires ',' !in s && '.' !in s
    ensures SwapAll(s) == s
  {
  }

  /** Through a placeholder that the text does not contain, the three
      replacements exchange `,` and `.` and change nothing else. */
  lemma SwapSeparatorsExchanges(s: string, placeholder: char)
    requires placeholder !in s && placeholder != ',' && placeholder != '.'
    ensures SwapSeparators(s, placeholder) == SwapAll(s)
  {
    var s1 := ReplaceAll(s, ",", [placeholder]);
    ReplaceCharPointwise(s, ',', placeholder);
    var s2 := ReplaceAll(s1, ".", ",");
    ReplaceCharPointwise(s1, '.', ',');
    ReplaceCharPointwise(s2, placeholder, '.');
  }

  /** Exchanging the separators of a grouping by `,` gives the grouping by `.`. */
  lemma {:induction false} SwapGroup(digits: string)
    requires AllDigits(digits)
    ensures SwapAll(Group(digits, ',')) == Group(digits, '.')
    decreases |digits|
  {
    if |digits| > 3 {
      var head, tail := digits[..|digits| - 3], digits[|digits| - 3..];
      SwapGroup(head);
      var g := Group(head, ',') + [','] + tail;
      assert SwapAll(g) == SwapAll(Group(head, ',')) + ['.'] + tail;
    } else {
      assert SwapAll(digits) == digits;
    }
  }

  /** The swap through a placeholder on the parts of a formatted amount. */
  lemma SwapFormattedParts(sign: string, digits: string, cents2: string, placeholder: char)
    requires sign == "" || sign == "-"
    requires AllDigits(digits) && AllDigits(cents2)
    requires !IsDigit(placeholder) && placeholder !in "R$ -,."
    ensures SwapSeparators("R$ " + sign + Group(digits, ',') + "." + cents2, placeholder)
      == "R$ " + sign + Group(digits, '.') + "," + cents2
  {
    var prefix, g := "R$ " + sign, Group(digits, ',');
    var us := prefix + g + "." + cents2;
    assert SwapSeparators(us, placeholder) == SwapAll(us) by {
      assert placeholder !in prefix;
      assert placeholder !in g by { assert DigitsOr(g, ','); }
      assert placeholder !in cents2;
      SwapSeparatorsExchanges(us, placeholder);
    }
    assert SwapAll(us) == SwapAll(prefix) + SwapAll(g) + SwapAll(".") + SwapAll(cents2) by {
      SwapAppend(prefix + g + ".", cents2);
      SwapAppend(prefix + g, ".");
      SwapAppend(prefix, g);
    }
    assert SwapAll(g) == Group(digits, '.') by { SwapGroup(digits); }
    assert SwapAll(prefix) == prefix by { SwapNoSeparators(prefix); }
    assert SwapAll(cents2) == cents2 by { SwapNoSeparators(cents2); }
    assert SwapAll(".") == ",";
  }

  /** Concatenation regrouped: a prefix put before four joined parts. */
  lemma Regroup(a: string, b: string, c: string, d: string, e: string)
    ensures a + (b + c + d + e) == a + b + c + d + e
  {
  }

  /** The fallback formatter `f'R$ {v:,.2f}'` followed by the swap through a
      placeholder writes the Brazilian notation, whatever placeholder is used,
      provided it is neither a digit nor one of `R$ -,.`. */
  lemma FormatThenSwap(m: Amount, placeholder: char)
    requires !IsDigit(placeholder) && placeholder !in "R$ -,."
    ensures SwapSeparators("R$ " + FormatGrouped(m), placeholder) == BrazilianText(m)
  {
    var sign, digits, cents2 := SignText(m.negative), NatToString(m.units), FixedDigits(m.hundredths, 2);
    Regroup("R$ ", sign, Group(digits, ','), ".", cents2);
    SwapFormattedParts(sign, digits, cents2, placeholder);
  }

  /** Removing `.` from a grouping by `.` gives the digits back. */
  lemma {:induction false} UngroupPoints(digits: string)
    requires AllDigits(digits)
    ensures ReplaceAll(Group(digits, '.'), ".", "") == digits
    decreases |digits|
  {
    if |digits| > 3 {
      var head, tail := digits[..|digits| - 3], digits[|digits| - 3..];
      UngroupPoints(head);
      UngroupStep(Group(head, '.'), tail);
      assert head + tail == digits;
    } else {
      KeepWithout(digits, '.', "");
    }
  }

  /** Removing `.` from `front.tail`, where `tail` holds no `.`, removes it
      from `front` and the separator and keeps `tail`. */
  lemma UngroupStep(front: string, tail: string)
    requires '.' !in tail
    ensures ReplaceAll(front + "." + tail, ".", "") == ReplaceAll(front, ".", "") + tail
  {
    ReplaceCharAppend(front + ".", tail, '.', "");
    ReplaceCharAppend(front, ".", '.', "");
    ReplaceSingleChar('.', '.', "");
    KeepWithout(tail, '.', "");
  }

  /** Replacing a character that the text does not contain changes nothing. */
  lemma KeepWithout(s: string, c: char, rep: string)
    requires c !in s
    ensures ReplaceAll(s, [c], rep) == s
  {
    MissingCharNoOccurrence(s, [c], 0);
    ReplaceAbsent(s, [c], rep);
  }

  /** A text without `R` keeps its `R$`-free form when prefixed by `R$ `. */
  lemma DropMarker(rest: string)
    requires 'R' !in rest
    ensures ReplaceAll("R$ " + rest, "R$", "") == " " + rest
  {
    var s := "R$ " + rest;
    assert s[..2] == "R$";
    assert s[2..] == " " + rest;
    var t := " " + rest;
    if |t| >= 2 {
      assert t[..2][0] == ' ';
      assert t[..2] != "R$";
      assert t[1..] == rest;
    }
    assert ReplaceAll(rest, "R$", "") == rest by {
      MissingCharNoOccurrence(rest, "R$", 0);
      ReplaceAbsent(rest, "R$", "");
    }
  }

  /** The cleaning chain on the parts of a Brazilian amount. */
  lemma NormalizeParts(sign: string, digits: string, cents2: string)
    requires sign == "" || sign == "-"
    requires AllDigits(digits) && AllDigits(cents2)
    ensures Normalize("R$ " + sign + Group(digits, '.') + "," + cents2) == sign + digits + "." + cents2
  {
    var g := Group(digits, '.');
    var rest := sign + g + "," + cents2;
    assert "R$ " + sign + g + "," + cents2 == "R$ " + rest;
    assert 'R' !in rest && ' ' !in rest by {
      assert DigitsOr(g, '.');
      assert 'R' !in g && ' ' !in g;
    }
    assert ReplaceAll("R$ " + rest, "R$", "") == " " + rest by {
      DropMarker(rest);
    }
    assert ReplaceAll(" " + rest, " ", "") == rest by {
      ReplaceCharAppend(" ", rest, ' ', "");
      ReplaceSingleChar(' ', ' ', "");
      KeepWithout(rest, ' ', "");
    }
    assert ReplaceAll(rest, ".", "") == sign + digits + "," + cents2 by {
      RemovePoints(sign, digits, cents2);
    }
    assert ReplaceAll(sign + digits + "," + cents2, ",", ".") == sign + digits + "." + cents2 by {
      CommaToPoint(sign + digits, cents2);
    }
  }

  /** The cleaning chain turns the Brazilian notation of an amount back into
      a plain decimal literal `[-]units.hh`. */
  lemma NormalizeBrazilian(m: Amount)
    ensures Normalize(BrazilianText(m))
      == SignText(m.negative) + NatToString(m.units) + "." + FixedDigits(m.hundredths, 2)
  {
    var sign, digits, cents2 := SignText(m.negative), NatToString(m.units), FixedDigits(m.hundredths, 2);
    assert BrazilianText(m) == "R$ " + sign + Group(digits, '.') + "," + cents2;
    NormalizeParts(sign, digits, cents2);
  }

  lemma RemovePoints(sign: string, digits: string, cents2: string)
    requires AllDigits(digits) && AllDigits(cents2) && '.' !in sign
    ensures ReplaceAll(sign + Group(digits, '.') + "," + cents2, ".", "") == sign + digits + "," + cents2
  {
    var g := Group(digits, '.');
    assert ReplaceAll(sign + g + "," + cents2, ".", "")
      == ReplaceAll(sign, ".", "") + ReplaceAll(g, ".", "") + ReplaceAll(",", ".", "") + ReplaceAll(cents2, ".", "") by {
      ReplaceCharAppend(sign + g + ",", cents2, '.', "");
      ReplaceCharAppend(sign + g, ",", '.', "");
      ReplaceCharAppend(sign, g, '.', "");
    }
    assert ReplaceAll(g, ".", "") == digits by { UngroupPoints(digits); }
    assert ReplaceAll(sign, ".", "") == sign by { KeepWithout(sign, '.', ""); }
    assert ReplaceAll(",", ".", "") == "," by { ReplaceSingleChar(',', '.', ""); }
    assert ReplaceAll(cents2, ".", "") == cents2 by {
      assert '.' !in cents2;
      KeepWithout(cents2, '.', "");
    }
  }

  lemma CommaToPoint(head: string, cents2: string)
    requires ',' !in head && AllDigits(cents2)
    ensures ReplaceAll(head + "," + cents2, ",", ".") == head + "." + cents2
  {
    assert ReplaceAll(head + "," + cents2, ",", ".")
      == ReplaceAll(head, ",", ".") + ReplaceAll(",", ",", ".") + ReplaceAll(cents2, ",", ".") by {
      ReplaceCharAppend(head + ",", cents2, ',', ".");
      ReplaceCharAppend(head, ",", ',', ".");
    }
    assert ReplaceAll(head, ",", ".") == head by { KeepWithout(head, ',', "."); }
    assert ReplaceAll(",", ",", ".") == "." by { ReplaceSingleChar(',', ',', "."); }
    assert ReplaceAll(cents2, ",", ".") == cents2 by {
      assert ',' !in cents2;
      KeepWithout(cents2, ',', ".");
    }
  }

  /** The literal `units.hh` denotes units + hh / 100. */
  lemma AmountLiteralValue(units: nat, hundredths: Hundredths)
    ensures LiteralValue(NatToString(units), FixedDigits(hundredths, 2))
      == units as real + hundredths as real / 100.0
  {
    assert Shift(hundredths as real, 2) == hundredths as real / 100.0 by {
      assert Shift(hundredths as real, 1) == hundredths as real / 10.0;
    }
  }

  /** `float()` reads the literal `[-]units.hh` as the amount. */
  lemma ParseAmountLiteral(m: Amount)
    ensures ParseFloat(SignText(m.negative) + NatToString(m.units) + "." + FixedDigits(m.hundredths, 2))
      == Some(Value(m))
  {
    var v := m.units as real + m.hundredths as real / 100.0;
    assert Value(m) == Signed(m.negative, v);
    AmountLiteralValue(m.units, m.hundredths);
    ReadAmountLiteral(m.negative, NatToString(m.units), FixedDigits(m.hundredths, 2), v);
  }

  lemma ReadAmountLiteral(negative: bool, digits: string, cents2: string, v: real)
    requires |digits| > 0 && AllDigits(digits) && |cents2| == 2 && AllDigits(cents2)
    requires LiteralValue(digits, cents2) == v
    ensures ParseFloat(SignText(negative) + digits + "." + cents2) == Some(Signed(negative, v))
  {
    ParseFloatLiteral(SignText(negative) + digits + "." + cents2, negative, digits, cents2);
  }

  /** Round trip: reading the Brazilian notation of an amount with `float()`
      after the cleaning chain gives the amount back, sign included. */
  lemma ReadBrazilianText(m: Amount)
    ensures ParseFloat(Normalize(BrazilianText(m))) == Some(Value(m))
  {
    NormalizeBrazilian(m);
    ParseAmountLiteral(m);
  }
}
