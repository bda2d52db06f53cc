/** Exact decimals, their text form, and the bounded parser for monetary text. */
module Decimals {
  import opened Basics

  /** coefficient * 10^exponent */
  datatype Decimal = Decimal(coefficient: int, exponent: int)

  /** c with its last `places` digits after the point. */
  function Shifted(c: int, places: nat): Decimal {
    Decimal(c, -(places as int))
  }

  const MAX_TEXT := 4096
  const MAX_EXPONENT := 4096

  function Pow10(n: nat): (p: nat)
    ensures p > 0
  {
    if n == 0 then 1 else 10 * Pow10(n - 1)
  }

  lemma {:induction false} Pow10Add(a: nat, b: nat)
    ensures Pow10(a + b) == Pow10(a) * Pow10(b)
  {
    if a != 0 {
      Pow10Add(a - 1, b);
      assert Pow10(a + b) == 10 * (Pow10(a - 1) * Pow10(b));
    }
  }

  // ----- digits

  predicate IsDigit(c: char) { '0' <= c <= '9' }

  predicate AllDigits(s: string) { forall c | c in s :: IsDigit(c) }

  function DigitChar(d: nat): (c: char)
    requires d < 10
    ensures IsDigit(c) && DigitValue(c) == d
  {
    '0' + d as char
  }

  function DigitValue(c: char): (d: nat)
    requires IsDigit(c)
    ensures d < 10
  {
    c as int - '0' as int
  }

  function Digits(n: nat): (s: string)
    ensures s != "" && AllDigits(s)
  {
    if n < 10 then [DigitChar(n)] else Digits(n / 10) + [DigitChar(n % 10)]
  }

  function Number(s: string): nat
    requires AllDigits(s)
  {
    if s == "" then 0 else 10 * Number(s[..|s| - 1]) + DigitValue(s[|s| - 1])
  }

  lemma {:induction false} NumberOfDigits(n: nat)
    ensures Number(Digits(n)) == n
  {
    if n >= 10 {
      NumberOfDigits(n / 10);
      assert Digits(n)[..|Digits(n)| - 1] == Digits(n / 10);
    } else {
      assert Digits(n)[..0] == "";
    }
  }

  lemma Distribute(a: int, p: int)
    ensures a * (10 * p) == 10 * (a * p)
  {
  }

  lemma {:induction false} NumberConcat(a: string, b: string)
    requires AllDigits(a) && AllDigits(b)
    ensures AllDigits(a + b)
    ensures Number(a + b) == Number(a) * Pow10(|b|) + Number(b)
  {
    if b == "" {
      assert a + b == a;
    } else {
      var front, last := b[..|b| - 1], b[|b| - 1];
      NumberConcat(a, front);
      assert (a + b)[..|a + b| - 1] == a + front;
      assert (a + b)[|a + b| - 1] == last;
      Distribute(Number(a), Pow10(|front|));
    }
  }

  function Zeros(n: nat): (s: string)
    ensures |s| == n && AllDigits(s)
  {
    seq(n, _ => '0')
  }

  lemma {:induction false} NumberOfZeros(n: nat)
    ensures Number(Zeros(n)) == 0
  {
    if n > 0 {
      assert Zeros(n)[..n - 1] == Zeros(n - 1);
      NumberOfZeros(n - 1);
    }
  }

  function TrimZeros(s: string): (t: string)
    requires AllDigits(s)
    ensures AllDigits(t) && |t| <= |s| && s == t + Zeros(|s| - |t|)
  {
    if s != "" && s[|s| - 1] == '0' then TrimZeros(s[..|s| - 1]) else s
  }

  // ----- printing

  /** Plain notation; zeros at the end of the fraction are dropped. */
  function Text(d: Decimal): string
  {
    if d.coefficient < 0 then "-" + Magnitude(-d.coefficient, d.exponent)
    else Magnitude(d.coefficient, d.exponent)
  }

  function Magnitude(c: nat, exponent: int): string
  {
    if exponent <= 0 then PointText(c, -exponent)
    else if c == 0 then "0"
    else Digits(c) + Zeros(exponent)
  }

  function Whole(c: nat, places: nat): (s: string)
    ensures s != "" && AllDigits(s)
  {
    var s := Digits(c);
    if |s| > places then s[..|s| - places] else "0"
  }

  function Fraction(c: nat, places: nat): (s: string)
    ensures |s| == places && AllDigits(s)
  {
    var s := Digits(c);
    if |s| > places then s[|s| - places..] else Zeros(places - |s|) + s
  }

  function PointText(c: nat, places: nat): string
  {
    var f := TrimZeros(Fraction(c, places));
    if f == "" then Whole(c, places) else Whole(c, places) + "." + f
  }

  lemma {:induction false} TextOfShifted(c: nat, places: nat)
    ensures Text(Shifted(c, places)) == PointText(c, places)
  {
  }

  lemma {:induction false} WholeAndFraction(c: nat, places: nat)
    ensures Number(Whole(c, places) + Fraction(c, places)) == c
  {
    var s := Digits(c);
    NumberOfDigits(c);
    if |s| > places {
      assert Whole(c, places) + Fraction(c, places) == s;
    } else {
      var zeros := places - |s| + 1;
      assert Whole(c, places) + Fraction(c, places) == Zeros(zeros) + s;
      LeadingZeros(zeros, s);
    }
  }

  lemma {:induction false} LeadingZeros(n: nat, s: string)
    requires AllDigits(s)
    ensures AllDigits(Zeros(n) + s) && Number(Zeros(n) + s) == Number(s)
  {
    NumberConcat(Zeros(n), s);
    NumberOfZeros(n);
  }

  lemma {:induction false} TrailingZeros(s: string, n: nat)
    requires AllDigits(s)
    ensures AllDigits(s + Zeros(n)) && Number(s + Zeros(n)) == Number(s) * Pow10(n)
  {
    NumberConcat(s, Zeros(n));
    NumberOfZeros(n);
  }

  // ----- parsing

  function LeadingDigits(s: string): (n: nat)
    ensures n <= |s| && AllDigits(s[..n])
    ensures n < |s| ==> !IsDigit(s[n])
  {
    if s == "" || !IsDigit(s[0]) then 0
    else
      var n := LeadingDigits(s[1..]);
      assert s[..n + 1] == [s[0]] + s[1..][..n];
      n + 1
  }

  /** The optional exponent that ends a number: nothing, or e/E, a sign and digits. */
  function ParseExponent(s: string): Option<int>
  {
    if s == "" then Some(0)
    else if s[0] != 'e' && s[0] != 'E' then None
    else
      var signed := |s| > 1 && (s[1] == '+' || s[1] == '-');
      var digits := if signed then s[2..] else s[1..];
      if digits == "" || !AllDigits(digits) then None
      else Some(if signed && s[1] == '-' then -(Number(digits) as int) else Number(digits))
  }

  function ParseUnsigned(body: string): Option<Decimal>
  {
    var w := LeadingDigits(body);
    if w < |body| && body[w] == '.' then
      var f := LeadingDigits(body[w + 1..]);
      ParseParts(body[..w], body[w + 1..][..f], body[w + 1..][f..])
    else
      ParseParts(body[..w], "", body[w..])
  }

  function ParseParts(whole: string, fraction: string, exponent: string): Option<Decimal>
    requires AllDigits(whole) && AllDigits(fraction)
  {
    var e := ParseExponent(exponent);
    if whole == "" && fraction == "" then None
    else if e.None? || !(-MAX_EXPONENT <= e.value - |fraction| <= MAX_EXPONENT) then None
    else Some(Decimal(Number(whole + fraction), e.value - |fraction|))
  }

  /** Monetary text: optional sign, digits with an optional point, optional exponent; text
      longer than 4096 characters or an exponent beyond 4096 either way is refused. */
  function Parse(text: string): Option<Decimal>
  {
    if |text| > MAX_TEXT then None
    else if text != "" && text[0] == '+' then ParseUnsigned(text[1..])
    else if text != "" && text[0] == '-' then
      match ParseUnsigned(text[1..])
      case None => None
      case Some(d) => Some(d.(coefficient := -d.coefficient))
    else ParseUnsigned(text)
  }

  lemma {:induction false} LeadingDigitsSpan(a: string, b: string)
    requires AllDigits(a)
    requires b == "" || !IsDigit(b[0])
    ensures LeadingDigits(a + b) == |a|
  {
    if a == "" {
      assert a + b == b;
    } else {
      assert IsDigit(a[0]);
      assert (a + b)[1..] == a[1..] + b;
      LeadingDigitsSpan(a[1..], b);
    }
  }

  lemma {:induction false} ParseWhole(w: string)
    requires AllDigits(w) && w != ""
    requires |w| <= MAX_TEXT
    ensures Parse(w) == Some(Shifted(Number(w), 0))
  {
    assert IsDigit(w[0]);
    LeadingDigitsSpan(w, "");
    assert w + "" == w;
  }

  lemma {:induction false} ParsePoint(w: string, f: string)
    requires AllDigits(w) && AllDigits(f) && w != "" && f != ""
    requires |w + "." + f| <= MAX_TEXT
    ensures AllDigits(w + f)
    ensures Parse(w + "." + f) == Some(Shifted(Number(w + f), |f|))
  {
    var text := w + "." + f;
    assert IsDigit(w[0]) && text[0] == w[0];
    LeadingDigitsSpan(w, "." + f);
    assert text == w + ("." + f);
    LeadingDigitsSpan(f, "");
    assert f + "" == f;
    assert text[..|w|] == w && text[|w| + 1..] == f;
    assert f[..|f|] == f && f[|f|..] == "";
    assert ParseUnsigned(text) == ParseParts(w, f, "");
  }

  /** Parsing printed text gives back the same number, with the trimmed zeros divided out. */
  lemma {:induction false} ParseText(c: nat, places: nat) returns (c': nat, places': nat)
    requires |PointText(c, places)| <= MAX_TEXT
    ensures places' <= places
    ensures Parse(PointText(c, places)) == Some(Shifted(c', places'))
    ensures c == c' * Pow10(places - places')
  {
    var w, fraction := Whole(c, places), Fraction(c, places);
    var f := TrimZeros(fraction);
    c', places' := Number(w + f), |f|;
    if f == "" {
      ParseWhole(w);
      assert w + f == w;
    } else {
      ParsePoint(w, f);
    }
    WholeAndFraction(c, places);
    assert w + fraction == (w + f) + Zeros(places - |f|);
    TrailingZeros(w + f, places - |f|);
  }
}
