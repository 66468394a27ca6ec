/**
  Amounts of money in integer cents, and the three ways the cart turns one
  into text: PHP's `number_format($x, 2, '.', ' ')` (rounded half away from
  zero, groups of three digits separated by a space), MySQL's `DECIMAL(6,2)`
  column text, and PHP's plain float-to-string conversion.
 */
module Money {
  import opened Strings
  import opened Wrappers

  /** Rounding to the nearest integer, ties away from zero (PHP's `round`). */
  function RoundHalfAway(x: real): (r: int)
    ensures x >= 0.0 ==> r as real - 0.5 <= x < r as real + 0.5
    ensures x < 0.0 ==> r as real - 0.5 < x <= r as real + 0.5
  {
    if x >= 0.0 then (x + 0.5).Floor else -((0.5 - x).Floor)
  }

  /** Rounding is symmetric about zero, which is what "away from zero" means for ties. */
  lemma RoundHalfAwaySymmetric(x: real)
    ensures RoundHalfAway(-x) == -RoundHalfAway(x)
  {
  }

  /**
    The integer digits `d` with a space before every group of three counted
    from the right: `"1234567"` becomes `"1 234 567"`.
   */
  function GroupThousands(d: string): (r: string)
    requires |d| >= 1 && AllDigits(d)
    ensures |r| == |d| + (|d| - 1) / 3
    ensures forall i :: 0 <= i < |r| ==> r[i] == ' ' || IsDigit(r[i])
    ensures IsDigit(r[0]) && IsDigit(r[|r| - 1])
  {
    if |d| <= 3 then d
    else GroupThousands(d[..|d| - 3]) + " " + d[|d| - 3..]
  }

  /** Separators stand exactly at the inner positions a multiple of four from the end. */
  predicate SeparatorsEveryFourth(r: string)
  {
    forall i :: 0 <= i < |r| ==> (r[i] == ' ' <==> i > 0 && (|r| - i) % 4 == 0)
  }

  lemma {:induction false} GroupThousandsSpaces(d: string)
    requires |d| >= 1 && AllDigits(d)
    ensures SeparatorsEveryFourth(GroupThousands(d))
  {
    if |d| <= 3 {
      SeparatorsShort(d);
    } else {
      var t := d[|d| - 3..];
      GroupThousandsSpaces(d[..|d| - 3]);
      assert AllDigits(t);
      SeparatorsExtend(GroupThousands(d[..|d| - 3]), t);
    }
  }

  lemma SeparatorsShort(d: string)
    requires |d| <= 3 && AllDigits(d)
    ensures SeparatorsEveryFourth(d)
  {
    forall i | 0 <= i < |d|
      ensures d[i] != ' ' && (i > 0 ==> (|d| - i) % 4 != 0)
    {
      assert IsDigit(d[i]);
    }
  }

  /** Appending a separator and a group of three digits keeps separators every fourth place. */
  lemma SeparatorsExtend(g: string, t: string)
    requires |g| >= 1 && SeparatorsEveryFourth(g)
    requires |t| == 3 && AllDigits(t)
    ensures SeparatorsEveryFourth(g + " " + t)
  {
    var r := g + " " + t;
    forall i | 0 <= i < |r|
      ensures r[i] == ' ' <==> i > 0 && (|r| - i) % 4 == 0
    {
      if i < |g| {
        assert r[i] == g[i];
      } else if i == |g| {
        assert r[i] == ' ';
      } else {
        assert r[i] == t[i - |g| - 1];
        assert IsDigit(t[i - |g| - 1]);
      }
    }
  }

  /** Deleting the separators from a grouped number gives back its digits. */
  lemma {:induction false} GroupThousandsDigits(d: string)
    requires |d| >= 1 && AllDigits(d)
    ensures RemoveChar(GroupThousands(d), ' ') == d
  {
    if |d| <= 3 {
      RemoveCharAbsent(d, ' ');
    } else {
      var g := d[..|d| - 3];
      var t := d[|d| - 3..];
      GroupThousandsDigits(g);
      assert AllDigits(t);
      RemoveSeparator(GroupThousands(g), t);
      assert d == g + t;
    }
  }

  lemma RemoveSeparator(g: string, t: string)
    requires AllDigits(t)
    ensures RemoveChar(g + " " + t, ' ') == RemoveChar(g, ' ') + t
  {
    RemoveCharAppend(g + " ", t, ' ');
    RemoveCharAppend(g, " ", ' ');
    RemoveCharAbsent(t, ' ');
    assert RemoveChar(" ", ' ') == [];
    assert RemoveChar(g, ' ') + [] == RemoveChar(g, ' ');
  }

  /** The unsigned part of a formatted amount of `n` cents. */
  function UnsignedAmount(n: nat): (r: string)
    ensures |r| >= 4 && IsDigit(r[0]) && r[|r| - 3] == '.'
  {
    GroupThousands(NatToDigits(n / 100)) + "." + TwoDigits(n % 100)
  }

  /** `number_format` of an amount already rounded to `c` cents. */
  function FormatCents(c: int): (r: string)
    ensures |r| >= 4 && r[|r| - 3] == '.' && IsDigit(r[|r| - 2]) && IsDigit(r[|r| - 1])
    ensures r[0] == '-' <==> c < 0
  {
    if c < 0 then "-" + UnsignedAmount(-c) else UnsignedAmount(c)
  }

  /**
    The whole units of a formatted amount, between the optional minus and
    the point, have a space before every group of three digits counted from
    the right, and without the spaces are the decimal digits of the units.
   */
  lemma FormatCentsGrouped(c: int)
    ensures var r := FormatCents(c);
      var whole := r[(if c < 0 then 1 else 0)..|r| - 3];
      && SeparatorsEveryFourth(whole)
      && RemoveChar(whole, ' ') == NatToDigits((if c < 0 then -c else c) / 100)
  {
    var n: nat := if c < 0 then -c else c;
    var u := UnsignedAmount(n);
    UnsignedGrouped(n);
    if c < 0 {
      assert FormatCents(c) == "-" + u;
      MinusWhole(u);
    } else {
      assert FormatCents(c) == u;
    }
  }

  lemma MinusWhole(u: string)
    requires |u| >= 3
    ensures ("-" + u)[1..|"-" + u| - 3] == u[..|u| - 3]
  {
  }

  lemma UnsignedGrouped(n: nat)
    ensures var u := UnsignedAmount(n);
      && SeparatorsEveryFourth(u[..|u| - 3])
      && RemoveChar(u[..|u| - 3], ' ') == NatToDigits(n / 100)
  {
    var d := NatToDigits(n / 100);
    var g := GroupThousands(d);
    GroupThousandsSpaces(d);
    GroupThousandsDigits(d);
    var tail := "." + TwoDigits(n % 100);
    assert UnsignedAmount(n) == g + tail;
    assert |tail| == 3;
    PrefixOfAppend(g, tail);
  }

  lemma PrefixOfAppend(g: string, tail: string)
    ensures (g + tail)[..|g + tail| - |tail|] == g
  {
  }

  /**
    `number_format($x / 100, 2, '.', ' ')` for an exact amount `x` in cents:
    the only place a fraction of a cent is rounded away.
   */
  function NumberFormat(x: real): string
  {
    FormatCents(RoundHalfAway(x))
  }

  /** Reads back a `number_format` string as a whole number of cents. */
  function ParseAmount(s: string): Option<int>
  {
    if |s| > 0 && s[0] == '-' then
      match ParseUnsignedAmount(s[1..])
      case Some(n) => Some(-n)
      case None => None
    else ParseUnsignedAmount(s)
  }

  function ParseUnsignedAmount(s: string): (r: Option<int>)
    ensures r.Some? ==> r.value >= 0
  {
    ParsePoint(RemoveChar(s, ' '))
  }

  /** Digits, a point and two digits, read as cents. */
  function ParsePoint(t: string): (r: Option<int>)
    ensures r.Some? ==> r.value >= 0
  {
    if |t| >= 4 && t[|t| - 3] == '.' && AllDigits(t[..|t| - 3]) && AllDigits(t[|t| - 2..]) then
      Some(DigitsToNat(t[..|t| - 3]) * 100 + DigitsToNat(t[|t| - 2..]))
    else None
  }

  lemma UnsignedAmountRoundTrip(n: nat)
    ensures ParseUnsignedAmount(UnsignedAmount(n)) == Some(n)
  {
    var d := NatToDigits(n / 100);
    var f := TwoDigits(n % 100);
    ParseOfParts(d, f);
    DigitsRoundTrip(n / 100);
    assert DigitsToNat(f) == n % 100;
    assert (n / 100) * 100 + n % 100 == n;
  }

  /** A grouped integer part, a point and two digits read back as the amount they spell. */
  lemma ParseOfParts(d: string, f: string)
    requires |d| >= 1 && AllDigits(d) && |f| == 2 && AllDigits(f)
    ensures ParseUnsignedAmount(GroupThousands(d) + "." + f).Some?
    ensures ParseUnsignedAmount(GroupThousands(d) + "." + f).value == DigitsToNat(d) * 100 + DigitsToNat(f)
  {
    var g := GroupThousands(d);
    GroupThousandsDigits(d);
    RemoveAroundPoint(g, f);
    ParseStripped(g + "." + f, d, f);
  }

  lemma RemoveAroundPoint(g: string, f: string)
    requires AllDigits(f)
    ensures RemoveChar(g + "." + f, ' ') == RemoveChar(g, ' ') + "." + f
  {
    RemoveCharAppend(g + ".", f, ' ');
    RemoveCharAppend(g, ".", ' ');
    RemoveCharAbsent(f, ' ');
    assert RemoveChar(".", ' ') == ".";
  }

  /** A string whose separators stand around digits, a point and two digits parses as that amount. */
  lemma ParseStripped(s: string, d: string, f: string)
    requires |d| >= 1 && AllDigits(d) && |f| == 2 && AllDigits(f)
    requires RemoveChar(s, ' ') == d + "." + f
    ensures ParseUnsignedAmount(s).Some?
    ensures ParseUnsignedAmount(s).value == DigitsToNat(d) * 100 + DigitsToNat(f)
  {
    ParsePointParts(d, f);
  }

  lemma ParsePointParts(d: string, f: string)
    requires |d| >= 1 && AllDigits(d) && |f| == 2 && AllDigits(f)
    ensures ParsePoint(d + "." + f).Some?
    ensures ParsePoint(d + "." + f).value == DigitsToNat(d) * 100 + DigitsToNat(f)
  {
    var t := PointParts(d, f);
    assert AllDigits(t[..|t| - 3]) && AllDigits(t[|t| - 2..]);
  }

  lemma PointParts(d: string, f: string) returns (t: string)
    requires |f| == 2
    ensures t == d + "." + f && |t| >= 3
    ensures t[..|t| - 3] == d && t[|t| - 3] == '.' && t[|t| - 2..] == f
  {
    t := d + "." + f;
  }

  /** Every formatted amount reads back as the number of cents it was made from. */
  lemma FormatCentsRoundTrip(c: int)
    ensures ParseAmount(FormatCents(c)) == Some(c)
  {
    if c < 0 {
      UnsignedAmountRoundTrip(-c);
      ParseSigned(UnsignedAmount(-c), -c);
    } else {
      UnsignedAmountRoundTrip(c);
    }
  }

  /** A minus sign in front of an unsigned amount negates it. */
  lemma ParseSigned(u: string, n: int)
    requires |u| > 0 && u[0] != '-' && ParseUnsignedAmount(u) == Some(n)
    ensures ParseAmount("-" + u) == Some(-n)
  {
    assert ("-" + u)[1..] == u;
  }

  /**
    The amount a `number_format` string displays is within half a cent of
    the exact amount it was made from.
   */
  lemma NumberFormatNearest(x: real)
    ensures ParseAmount(NumberFormat(x)).Some?
    ensures var shown := ParseAmount(NumberFormat(x)).value as real;
      shown - 0.5 <= x <= shown + 0.5
  {
    FormatCentsRoundTrip(RoundHalfAway(x));
  }

  /** MySQL's text for a `DECIMAL(6,2)` value of `c` cents: always two decimals, no grouping. */
  function DecimalColumnText(c: int): (r: string)
    ensures |r| >= 4 && r[|r| - 3] == '.'
    ensures r[0] == '-' <==> c < 0
  {
    var n := if c < 0 then -c else c;
    (if c < 0 then "-" else "") + NatToDigits(n / 100) + "." + TwoDigits(n % 100)
  }

  /**
    PHP's string conversion of the float `c / 100`: trailing zeros of the
    fraction and a bare decimal point are dropped, so 76290 cents prints as
    `762.9` and 50000 cents as `500`.
   */
  function FloatText(c: int): (r: string)
    ensures |r| >= 1
    ensures r[0] == '-' <==> c < 0
  {
    var n := if c < 0 then -c else c;
    var f := n % 100;
    var frac := if f == 0 then "" else if f % 10 == 0 then "." + [DigitChar(f / 10)] else "." + TwoDigits(f);
    (if c < 0 then "-" else "") + NatToDigits(n / 100) + frac
  }
}
