/** What the texts of a distribution are worth. */
module SplitText {
  import opened Arithmetic
  import opened Basics
  import opened Decimals
  import opened Allocation
  import opened Split
  import Amounts

  lemma QuotientTimes(x: real, y: real, p: real, a: real)
    requires y > 0.0 && x * p == a * y
    ensures (x / y) * p == a
  {
    var q := x / y;
    assert q * y == x;
    assert (q * p) * y == (q * y) * p;
    assert (q * p - a) * y == (q * p) * y - a * y;
  }

  lemma TrimmedValue(c: nat, places: nat, c': nat, places': nat, a: nat, p: nat)
    requires places' <= places && c == c' * Pow10(places - places') && c * p == a * Pow10(places)
    ensures c' * p == a * Pow10(places')
  {
    var scale := Pow10(places - places');
    Pow10Add(places', places - places');
    Swap(c', scale, p);
    Swap(a, Pow10(places'), scale);
    assert (c' * p) * scale == (a * Pow10(places')) * scale;
    MulCancel(c' * p, a * Pow10(places'), scale);
    MulCancel(a * Pow10(places'), c' * p, scale);
  }

  lemma RealProduct(x: int, y: int)
    ensures x as real * y as real == (x * y) as real
  {
  }

  lemma ScaledReal(c: nat, p: nat, a: nat, scale: nat)
    requires scale > 0 && c * p == a * scale
    ensures (c as real / scale as real) * p as real == a as real
  {
    RealProduct(c, p);
    RealProduct(a, scale);
    QuotientTimes(c as real, scale as real, p as real, a as real);
  }

  lemma OneUnit(c: nat, scale: nat)
    requires scale == 1
    ensures (c * scale) as real == c as real / scale as real
  {
  }

  lemma ValueOfShifted(c: nat, places: nat)
    ensures Value(Shifted(c, places)) == c as real / Pow10(places) as real
  {
    hide Pow10;
    if places == 0 {
      assert Pow10(0) == 1 by { OneIsPow10(); }
      OneUnit(c, Pow10(0));
    }
  }

  lemma OneIsPow10()
    ensures Pow10(0) == 1
  {
  }

  lemma MinorUnitsOf(c: nat, places: nat, a: nat, p: nat)
    requires p > 0 && c * p == a * Pow10(places)
    ensures MinorUnits(Shifted(c, places), p) == a as real
  {
    hide Value, Pow10;
    ValueOfShifted(c, places);
    ScaledReal(c, p, a, Pow10(places));
  }

  /** A plain decimal text is a fixed part. */
  lemma FixedText(id: string, text: string, x: Decimal, p: nat)
    requires p > 0 && text != "" && IsDigit(text[|text| - 1]) && Parse(text) == Some(x) && x.coefficient >= 0
    ensures PartOf(Distribution(id, text, "", ""), p) == Fixed(MinorUnits(x, p))
  {
    hide Parse, MinorUnits, Value;
    EndsInDigit(text);
  }

  lemma EndsInDigit(s: string)
    requires s != "" && (IsDigit(s[|s| - 1]))
    ensures s != "left" && s[|s| - 1] != '%'
  {
  }

  lemma PointTextEndsInDigit(c: nat, places: nat)
    ensures PointText(c, places) != "" && IsDigit(PointText(c, places)[|PointText(c, places)| - 1])
  {
    var w, f := Whole(c, places), TrimZeros(Fraction(c, places));
    if f == "" {
      assert w[|w| - 1] in w;
    } else {
      assert f[|f| - 1] in f;
    }
  }

  /** A fixed part written as the printed form of an amount is worth exactly that amount, at every
      scale whose decimal expansion ends. */
  lemma PrintedAmountIsPart(id: string, a: nat, p: nat)
    requires p > 0 && Amounts.Terminates(p) && |Amounts.AmountText(a, p)| <= MAX_TEXT
    ensures PartOf(Distribution(id, Amounts.AmountText(a, p), "", ""), p) == Fixed(a as real)
  {
    hide *;
    var c, places := Amounts.Coefficient(a, p), Amounts.Places(p);
    Amounts.PrintedExactly(a, p);
    assert Amounts.AmountText(a, p) == PointText(c, places) by { PrintedText(a, p); }
    var c', places' := ParseText(c, places);
    TrimmedValue(c, places, c', places', a, p);
    assert Shifted(c', places').coefficient >= 0 by { ShiftedCoefficient(c', places'); }
    PointTextEndsInDigit(c, places);
    FixedText(id, PointText(c, places), Shifted(c', places'), p);
    MinorUnitsOf(c', places', a, p);
  }

  lemma PrintedText(a: nat, p: nat)
    requires p > 0
    ensures Amounts.AmountText(a, p) == PointText(Amounts.Coefficient(a, p), Amounts.Places(p))
  {
  }

  lemma ShiftedCoefficient(c: nat, places: nat)
    ensures Shifted(c, places).coefficient >= 0
  {
  }

  /** Minor units written out are worth themselves; a negative number is refused. */
  lemma WholeUnitsArePart(id: string, n: nat, p: nat)
    requires p > 0 && |Digits(n)| < MAX_TEXT
    ensures PartOf(Distribution(id, "", Digits(n), ""), p) == Fixed(n as real)
    ensures n > 0 ==> PartOf(Distribution(id, "", "-" + Digits(n), ""), p) == Malformed
  {
    var s := Digits(n);
    hide Digits;
    NumberOfDigits(n);
    assert s[0] in s && s[|s| - 1] in s;
    EndsInDigit(s);
    EndsInDigit("-" + s);
    assert ("-" + s)[1..] == s;
  }

  /** A whole percentage is read as its number. */
  lemma WholePercentIsPart(id: string, n: nat, p: nat)
    requires p > 0 && |Digits(n)| <= MAX_TEXT
    ensures PartOf(Distribution(id, Digits(n) + "%", "", ""), p) == Percent(n as real)
  {
    var s := Digits(n);
    hide Digits, Parse;
    NumberOfDigits(n);
    ParseWhole(s);
    assert (s + "%")[..|s + "%"| - 1] == s && (s + "%")[|s + "%"| - 1] == '%';
    assert Pow10(0) == 1;
  }
}
