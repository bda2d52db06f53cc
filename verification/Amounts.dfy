/** Conversion between integer minor units and decimal text (model/amount.go and the precision
    half of model/model.go). A float64 precision is modelled by the integer it denotes; the
    compatibility float `Amount` keeps the exact decimal, except that values beyond the float64
    range become `NotFinite`. */
module Amounts {
  import opened Basics
  import opened Decimals
  import opened Arithmetic

  // ----- rounding

  /** m is n / d rounded to the nearest integer, ties upward. */
  predicate Rounds(n: int, d: nat, m: int)
  {
    (2 * m - 1) * d <= 2 * n < (2 * m + 1) * d
  }

  function RoundHalfUp(n: nat, d: nat): (m: nat)
    requires d > 0
    ensures Rounds(n, d, m)
  {
    var m := (2 * n + d) / (2 * d);
    HalfUpRounds(n, d, m);
    m
  }

  lemma HalfUpRounds(n: nat, d: nat, m: int)
    requires d > 0 && m == (2 * n + d) / (2 * d)
    ensures m >= 0 && Rounds(n, d, m)
  {
    var q := 2 * d;
    assert 2 * n + d == q * m + (2 * n + d) % q;
    assert q * m == 2 * (m * d);
    Odd(m, d);
    assert m * q == q * m;
    if m < 0 {
      MulMonotonic(m, -1, q);
    }
  }

  lemma RoundsUnique(n: int, d: nat, m: int, m': int)
    requires Rounds(n, d, m) && Rounds(n, d, m')
    ensures m == m'
  {
    if m < m' {
      MulMonotonic(2 * m + 1, 2 * m' - 1, d);
    } else if m' < m {
      MulMonotonic(2 * m' + 1, 2 * m - 1, d);
    }
  }

  lemma RoundsScaled(n: int, d: nat, s: nat, m: int)
    requires s > 0 && Rounds(n * s, d * s, m)
    ensures Rounds(n, d, m)
  {
    Swap(2 * m - 1, d, s);
    Swap(2 * m + 1, d, s);
    Swap(2, n, s);
    MulCancel((2 * m - 1) * d, 2 * n, s);
    MulCancelStrict(2 * n, (2 * m + 1) * d, s);
  }

  // ----- parsing amounts

  datatype AmountError = BadPrecision | BadText | NotPositive | RoundsToZero

  /** m minor units is the amount d at this precision, to the nearest unit. */
  predicate Nearest(d: Decimal, precision: int, m: int)
  {
    if d.exponent >= 0 then m == d.coefficient * precision * Pow10(d.exponent)
    else Rounds(d.coefficient * precision, Pow10(-d.exponent), m)
  }

  function MinorUnits(d: Decimal, precision: nat): (m: nat)
    requires d.coefficient >= 0
    ensures Nearest(d, precision, m)
  {
    if d.exponent >= 0 then d.coefficient * precision * Pow10(d.exponent)
    else RoundHalfUp(d.coefficient * precision, Pow10(-d.exponent))
  }

  function ParseAmount(text: string, precision: int): (r: Result<nat, AmountError>)
    ensures r.Ok? ==>
              && Parse(text).Some? && Parse(text).value.coefficient > 0
              && r.value > 0 && Nearest(Parse(text).value, EffectivePrecision(precision), r.value)
    ensures r == Err(RoundsToZero) ==> Parse(text).Some? && Nearest(Parse(text).value, EffectivePrecision(precision), 0)
  {
    if precision < 0 then Err(BadPrecision)
    else
      var value := Parse(text);
      if value.None? then Err(BadText)
      else if value.value.coefficient <= 0 then Err(NotPositive)
      else
        var minor := MinorUnits(value.value, EffectivePrecision(precision));
        if minor == 0 then Err(RoundsToZero) else Ok(minor)
  }

  lemma NearestIsUnique(d: Decimal, precision: int, m: int, n: int)
    requires Nearest(d, precision, m) && Nearest(d, precision, n)
    ensures m == n
  {
    if d.exponent < 0 {
      RoundsUnique(d.coefficient * precision, Pow10(-d.exponent), m, n);
    }
  }

  /** A parse succeeds exactly for a positive decimal that does not round to zero minor units. */
  lemma ParsesIff(text: string, precision: int)
    ensures ParseAmount(text, precision).Ok? <==>
            (precision >= 0 && Parse(text).Some? && Parse(text).value.coefficient > 0 &&
             !Nearest(Parse(text).value, EffectivePrecision(precision), 0))
  {
    hide Nearest, Parse, MinorUnits;
    var value, p := Parse(text), EffectivePrecision(precision);
    if precision >= 0 && value.Some? && value.value.coefficient > 0 && Nearest(value.value, p, 0) {
      NearestIsUnique(value.value, p, MinorUnits(value.value, p), 0);
    }
  }

  /** Zero stands for the default scale of one. */
  function EffectivePrecision(precision: int): int
  {
    if precision == 0 then 1 else precision
  }

  // ----- how many places to print

  /** The two prime factors of ten. */
  datatype Factor = Two | Five {
    function Value(): nat {
      if Two? then 2 else 5
    }

    predicate Divides(n: nat) {
      if Two? then n % 2 == 0 else n % 5 == 0
    }

    function Quotient(n: nat): (q: nat)
      ensures Divides(n) ==> n == Value() * q
      ensures n > 0 ==> q < n
      ensures Five? && Divides(n) ==> q % 2 == n % 2
    {
      if Two? then n / 2 else n / 5
    }
  }

  /** How often the factor divides n. */
  function Times(n: nat, f: Factor): nat
    requires n > 0
    decreases n
  {
    if f.Divides(n) then 1 + Times(f.Quotient(n), f) else 0
  }

  /** n with the factor divided out. */
  function Without(n: nat, f: Factor): (r: nat)
    requires n > 0
    ensures r > 0 && !f.Divides(r)
    ensures f.Five? && n % 2 != 0 ==> r % 2 != 0
    decreases n
  {
    if f.Divides(n) then Without(f.Quotient(n), f) else n
  }

  function Power(b: nat, n: nat): (p: nat)
    ensures b > 0 ==> p > 0
  {
    if n == 0 then 1 else b * Power(b, n - 1)
  }

  function Places(p: nat): nat
    requires p > 0
  {
    if Without(Without(p, Two), Five) == 1 then Max(Times(p, Two), Times(Without(p, Two), Five))
    else |Digits(p)| + 16
  }

  /** The factor-stripping loops of the printer. */
  method CountPlaces(p: nat) returns (places: nat)
    requires p > 0
    ensures places == Places(p)
  {
    var denominator, count := p, 0;
    while denominator % 2 == 0
      invariant denominator > 0
      invariant Without(denominator, Two) == Without(p, Two) && count + Times(denominator, Two) == Times(p, Two)
      decreases denominator
    {
      denominator, count := denominator / 2, count + 1;
    }
    places := count;
    count := 0;
    while denominator % 5 == 0
      invariant denominator > 0
      invariant Without(denominator, Five) == Without(Without(p, Two), Five)
      invariant count + Times(denominator, Five) == Times(Without(p, Two), Five)
      decreases denominator
    {
      denominator, count := denominator / 5, count + 1;
    }
    if count > places {
      places := count;
    }
    if denominator != 1 {
      places := |Digits(p)| + 16;
    }
  }

  lemma {:induction false} Factored(n: nat, f: Factor)
    requires n > 0
    ensures n == Power(f.Value(), Times(n, f)) * Without(n, f)
    decreases n
  {
    if f.Divides(n) {
      var q := f.Quotient(n);
      Factored(q, f);
      Swap(f.Value(), Power(f.Value(), Times(q, f)), Without(q, f));
    }
  }

  lemma {:induction false} TenToThe(k: nat)
    ensures Pow10(k) == Power(2, k) * Power(5, k)
  {
    if k > 0 {
      TenToThe(k - 1);
      Regroup(2, 5, Power(2, k - 1), Power(5, k - 1));
    }
  }

  lemma {:induction false} PowerAdd(b: nat, m: nat, n: nat)
    ensures Power(b, m + n) == Power(b, m) * Power(b, n)
  {
    if m > 0 {
      PowerAdd(b, m - 1, n);
      Swap(b, Power(b, m - 1), Power(b, n));
    }
  }

  ghost predicate MultipleOf(n: nat, p: nat)
  {
    exists m: nat :: Product(p, m) == n
  }

  function Product(a: nat, b: nat): nat {
    a * b
  }

  /** Some power of ten is a multiple of p, that is, every fraction over p terminates. */
  ghost predicate Terminates(p: nat)
  {
    exists k: nat :: MultipleOf(Pow10(k), p)
  }

  /** A scale with only the factors two and five divides the power of ten that is printed. */
  lemma {:induction false} OnlyTwosAndFives(p: nat)
    requires p > 0 && Without(Without(p, Two), Five) == 1
    ensures MultipleOf(Pow10(Places(p)), p)
  {
    var a, b := Times(p, Two), Times(Without(p, Two), Five);
    Factored(p, Two);
    Factored(Without(p, Two), Five);
    assert Power(5, b) * 1 == Power(5, b);
    TenHolds(a, b, Max(a, b));
  }

  lemma {:induction false} TenHolds(a: nat, b: nat, k: nat)
    requires a <= k && b <= k
    ensures MultipleOf(Pow10(k), Power(2, a) * Power(5, b))
  {
    var x, y, u, v := Power(2, a), Power(5, b), Power(2, k - a), Power(5, k - b);
    TenToThe(k);
    PowerAdd(2, a, k - a);
    PowerAdd(5, b, k - b);
    Regroup(x, y, u, v);
    assert Product(x * y, u * v) == Pow10(k);
  }

  /** A number coprime to ten divides no power of ten, unless it is one. */
  lemma {:induction false} CoprimeToTen(r: nat, m: nat, k: nat)
    requires r % 2 != 0 && r % 5 != 0
    requires Pow10(k) == r * m
    ensures r == 1
    decreases k
  {
    if k == 0 {
      if r > 1 {
        MulMonotonic(2, r, m);
      }
    } else {
      FactorMovesOver(r, m, Pow10(k - 1));
      CoprimeToTen(r, m / 10, k - 1);
    }
  }

  lemma {:induction false} FactorMovesOver(r: nat, m: nat, t: nat)
    requires r % 2 != 0 && r % 5 != 0
    requires 10 * t == r * m
    ensures m % 10 == 0 && t == r * (m / 10)
  {
    var a, b, c, d := r / 10, r % 10, m / 10, m % 10;
    LastDigitKeeps(r, a, b);
    Expand(r, a, b, m, c, d);
    var rc, ad := r * c, a * d;
    LastDigits(b, d, t - rc - ad);
  }

  lemma LastDigitKeeps(r: nat, a: nat, b: nat)
    requires r == 10 * a + b && b < 10
    ensures b % 2 == r % 2 && b % 5 == r % 5
  {
    var x, y := b / 2, b / 5;
    RestOfTwo(r, 5 * a + x, b % 2);
    RestOfFive(r, 2 * a + y, b % 5);
  }

  lemma RestOfTwo(n: nat, q: nat, x: nat)
    requires n == 2 * q + x && x < 2
    ensures n % 2 == x
  {
  }

  lemma RestOfFive(n: nat, q: nat, x: nat)
    requires n == 5 * q + x && x < 5
    ensures n % 5 == x
  {
  }

  lemma Expand(r: int, a: int, b: int, m: int, c: int, d: int)
    requires r == 10 * a + b && m == 10 * c + d
    ensures r * m == 10 * (r * c + a * d) + b * d
    ensures d == 0 ==> r * m == 10 * (r * c)
  {
    assert r * m == r * (10 * c) + r * d;
    assert r * (10 * c) == 10 * (r * c);
    assert r * d == (10 * a) * d + b * d;
    assert (10 * a) * d == 10 * (a * d);
  }

  lemma LastDigits(b: nat, d: nat, e: int)
    requires b < 10 && d < 10 && b % 2 != 0 && b % 5 != 0
    requires b * d == 10 * e
    ensures d == 0
  {
    assert b == 1 || b == 3 || b == 7 || b == 9;
  }

  /** The printer's choice of places is exact precisely for the scales whose fractions end. */
  lemma {:induction false} PlacesExact(p: nat)
    requires p > 0
    ensures Terminates(p) <==> Without(Without(p, Two), Five) == 1
    ensures Terminates(p) ==> MultipleOf(Pow10(Places(p)), p)
    ensures !Terminates(p) ==> Pow10(Places(p)) > p
  {
    var r := Without(Without(p, Two), Five);
    if r == 1 {
      OnlyTwosAndFives(p);
    } else {
      if k: nat :| MultipleOf(Pow10(k), p) {
        var m: nat :| Product(p, m) == Pow10(k);
        OtherFactor(p, m, k);
      }
      ManyPlaces(p);
    }
  }

  lemma {:induction false} ManyPlaces(p: nat)
    ensures Pow10(|Digits(p)| + 16) > p
  {
    var n := |Digits(p)|;
    BelowPow10(p);
    Pow10Add(n, 16);
    MulMonotonic(1, Pow10(16), Pow10(n));
    assert Pow10(16) * Pow10(n) == Pow10(n) * Pow10(16);
  }

  lemma {:induction false} OtherFactor(p: nat, m: nat, k: nat)
    requires p > 0 && Pow10(k) == p * m
    ensures Without(Without(p, Two), Five) == 1
  {
    var odd := Without(p, Two);
    var r := Without(odd, Five);
    var x, y := Power(2, Times(p, Two)), Power(5, Times(odd, Five));
    Factored(p, Two);
    Factored(odd, Five);
    assert p == x * (y * r);
    Swap(x, y, r);
    Swap(x * y, r, m);
    assert p * m == r * ((x * y) * m) by {
      assert p == (x * y) * r;
    }
    MulNonNegative(x, y);
    MulNonNegative(x * y, m);
    CoprimeToTen(r, (x * y) * m, k);
  }

  lemma {:induction false} BelowPow10(n: nat)
    ensures n < Pow10(|Digits(n)|)
  {
    if n >= 10 {
      BelowPow10(n / 10);
    } else {
      assert Pow10(1) == 10 * Pow10(0);
    }
  }

  // ----- printing amounts

  /** The coefficient printed for a minor units at scale p. */
  function Coefficient(a: nat, p: nat): (c: nat)
    requires p > 0
  {
    RoundHalfUp(a * Pow10(Places(p)), p)
  }

  /** a / p to the given number of places. */
  function DivRound(a: nat, p: nat, places: nat): (d: Decimal)
    requires p > 0
    ensures d.coefficient >= 0
  {
    Shifted(RoundHalfUp(a * Pow10(places), p), places)
  }

  lemma {:induction false} QuotientText(a: nat, p: nat)
    requires p > 0
    ensures DivRound(a, p, Places(p)) == Shifted(Coefficient(a, p), Places(p))
    ensures Text(DivRound(a, p, Places(p))) == AmountText(a, p)
  {
    TextOfShifted(Coefficient(a, p), Places(p));
  }

  function AmountText(a: nat, p: nat): string
    requires p > 0
  {
    PointText(Coefficient(a, p), Places(p))
  }

  /** Printing is exact when the expansion ends: the printed number times p is a. */
  lemma {:induction false} PrintedExactly(a: nat, p: nat)
    requires p > 0 && Terminates(p)
    ensures Coefficient(a, p) * p == a * Pow10(Places(p))
  {
    PlacesExact(p);
    var t := Pow10(Places(p));
    var m: nat :| Product(p, m) == t;
    Swap(a, m, p);
    assert a * t == (a * m) * p;
    Odd(a * m, p);
    RoundsUnique(a * t, p, Coefficient(a, p), a * m);
  }

  /** Reading the printed coefficient back at the same scale rounds to the original amount. */
  lemma {:induction false} ReadsBack(a: nat, p: nat)
    requires p > 0
    ensures Rounds(Coefficient(a, p) * p, Pow10(Places(p)), a)
  {
    var c, t := Coefficient(a, p), Pow10(Places(p));
    PlacesExact(p);
    Odd(a, t);
    if Terminates(p) {
      PrintedExactly(a, p);
    } else {
      assert Rounds(a * t, p, c);
      Odd(c, p);
    }
  }

  /** Every positive amount survives printing and parsing at every scale, terminating or not,
      exactly when its text fits the parser's input cap. */
  lemma {:induction false} RoundTrip(a: nat, p: nat)
    requires a > 0 && p > 0
    ensures ParseAmount(AmountText(a, p), p) ==
            if |AmountText(a, p)| <= MAX_TEXT then Ok(a) else Err(BadText)
  {
    if |AmountText(a, p)| <= MAX_TEXT {
      ReadsBack(a, p);
      ParsesBack(Coefficient(a, p), Places(p), p, a);
    }
  }

  lemma {:induction false} ParsesBack(c: nat, places: nat, p: nat, a: nat)
    requires a > 0 && p > 0
    requires |PointText(c, places)| <= MAX_TEXT
    requires Rounds(c * p, Pow10(places), a)
    ensures ParseAmount(PointText(c, places), p) == Ok(a)
  {
    var c', places' := ParseText(c, places);
    TrimmedRounds(c, places, c', places', p, a);
    ParsedAmount(PointText(c, places), c', places', p, a);
  }

  lemma {:induction false} TrimmedRounds(c: nat, places: nat, c': nat, places': nat, p: nat, a: nat)
    requires places' <= places && c == c' * Pow10(places - places')
    requires Rounds(c * p, Pow10(places), a)
    ensures Rounds(c' * p, Pow10(places'), a)
  {
    var s := Pow10(places - places');
    Pow10Add(places', places - places');
    Swap(c', s, p);
    RoundsScaled(c' * p, Pow10(places'), s, a);
  }

  lemma {:induction false} MinorUnitsOf(c: nat, places: nat, p: nat, a: nat)
    requires Rounds(c * p, Pow10(places), a)
    ensures MinorUnits(Shifted(c, places), p) == a
  {
    if places == 0 {
      assert Pow10(0) == 1;
      assert c * p * Pow10(0) == c * p;
    } else {
      RoundsUnique(c * p, Pow10(places), RoundHalfUp(c * p, Pow10(places)), a);
    }
  }

  lemma {:induction false} ParsedAmount(text: string, c: nat, places: nat, p: nat, a: nat)
    requires a > 0 && p > 0
    requires Parse(text) == Some(Shifted(c, places))
    requires Rounds(c * p, Pow10(places), a)
    ensures ParseAmount(text, p) == Ok(a)
  {
    MulMonotonic(1, 2 * a - 1, Pow10(places));
    assert c > 0;
    MinorUnitsOf(c, places, p, a);
  }

  // ----- transactions

  /** A float64: the exact decimal it stands for, or an infinity or NaN. */
  datatype Float = Finite(value: Decimal) | NotFinite

  /** The monetary fields of a transaction; a missing preciseAmount is nil. */
  datatype Money = Money(preciseAmount: Option<int>, amountString: string, amount: Float,
                         precision: int, overdraftLimit: real)

  const FLOAT_EXPONENT := 1024
  const FLOAT_HALF_UNIT := 970

  /** The least value that rounds to infinity as a float64. */
  function FloatOverflow(): (limit: nat)
    ensures limit > 0
  {
    PowerLess(FLOAT_HALF_UNIT, FLOAT_EXPONENT);
    Power(2, FLOAT_EXPONENT) - Power(2, FLOAT_HALF_UNIT)
  }

  lemma {:induction false} PowerLess(m: nat, n: nat)
    requires m < n
    ensures Power(2, m) < Power(2, n)
    decreases n
  {
    if m + 1 < n {
      PowerLess(m, n - 1);
    }
  }

  function ToFloat(c: nat, places: nat): Float
  {
    if c < FloatOverflow() * Pow10(places) then Finite(Shifted(c, places)) else NotFinite
  }

  predicate ValidMoney(m: Money)
  {
    && m.amount.Finite? && m.amount.value.coefficient >= 0
    && (m.amountString != "" ==> Parse(m.amountString).Some? && Parse(m.amountString).value.coefficient >= 0)
    && m.precision >= 0
    && m.overdraftLimit >= 0.0
  }

  /** The decimal text an amount is read from. */
  function DecimalAmount(m: Money): string
    requires m.amount.Finite?
  {
    if m.amountString != "" then m.amountString else Text(m.amount.value)
  }

  /** The minor units of a transaction with valid fields; unreadable text counts as zero. */
  function MinorOf(m: Money): nat
    requires ValidMoney(m)
  {
    if m.preciseAmount.Some? && m.preciseAmount.value > 0 then m.preciseAmount.value
    else
      var parsed := ParseAmount(DecimalAmount(m), EffectivePrecision(m.precision));
      if parsed.Ok? then parsed.value else 0
  }

  /** The fields written when a minor units at scale p are made authoritative. */
  function Printed(m: Money, a: nat, p: nat): Money
    requires p > 0
  {
    m.(preciseAmount := Some(a), precision := p, amountString := AmountText(a, p),
       amount := ToFloat(Coefficient(a, p), Places(p)))
  }

  /** What applying the precision makes of the fields, and the amount it returns. */
  function Applied(m: Money): (Money, int)
  {
    if !ValidMoney(m) then (m, 0)
    else (Printed(m, MinorOf(m), EffectivePrecision(m.precision)), MinorOf(m))
  }

  /** Accepted by the ingest check: valid fields and a positive amount. */
  predicate Chargeable(m: Money)
  {
    ValidMoney(m) &&
    if m.preciseAmount.Some? then m.preciseAmount.value > 0
    else ParseAmount(DecimalAmount(m), m.precision).Ok?
  }

  class Transaction {
    var preciseAmount: Option<int>
    var amountString: string
    var amount: Float
    var precision: int
    var overdraftLimit: real
    var allowOverdraft: bool
    var inflight: bool

    function View(): Money
      reads this
    {
      Money(preciseAmount, amountString, amount, precision, overdraftLimit)
    }

    constructor (money: Money, allowOverdraft: bool, inflight: bool)
      ensures View() == money && this.allowOverdraft == allowOverdraft && this.inflight == inflight
    {
      preciseAmount, amountString, amount := money.preciseAmount, money.amountString, money.amount;
      precision, overdraftLimit := money.precision, money.overdraftLimit;
      this.allowOverdraft, this.inflight := allowOverdraft, inflight;
    }

    method ConvertPreciseToDecimal()
      requires preciseAmount.Some? && preciseAmount.value >= 0 && precision > 0
      modifies this`amountString, this`amount
      ensures View() == Printed(old(View()), preciseAmount.value, precision)
    {
      var places := CountPlaces(precision);
      var quotient := DivRound(preciseAmount.value, precision, places);
      QuotientText(preciseAmount.value, precision);
      amountString := Text(quotient);
      amount := ToFloat(quotient.coefficient, places);
    }

    method ApplyPrecision() returns (minor: int)
      modifies this`preciseAmount, this`amountString, this`amount, this`precision
      ensures (View(), minor) == Applied(old(View()))
    {
      if !ValidMoney(View()) {
        return 0;
      }
      if precision == 0 {
        precision := 1;
      }
      if !(preciseAmount.Some? && preciseAmount.value > 0) {
        var parsed := ParseAmount(DecimalAmount(View()), precision);
        preciseAmount := Some(if parsed.Ok? then parsed.value else 0);
      }
      ConvertPreciseToDecimal();
      minor := preciseAmount.value;
    }

    /** Validation first: a refused transaction is left as it was. */
    method ApplyPrecisionChecked() returns (r: Option<int>)
      modifies this`preciseAmount, this`amountString, this`amount, this`precision
      ensures r.Some? <==> Chargeable(old(View()))
      ensures r.None? ==> View() == old(View())
      ensures r.Some? ==> r.value > 0 && (View(), r.value) == Applied(old(View()))
    {
      var money := View();
      if !ValidMoney(money) {
        return None;
      }
      if money.preciseAmount.Some? {
        if money.preciseAmount.value <= 0 {
          return None;
        }
      } else {
        var parsed := ParseAmount(DecimalAmount(money), money.precision);
        if parsed.Err? {
          return None;
        }
        ParseAtDefault(DecimalAmount(money), money.precision);
      }
      var minor := ApplyPrecision();
      r := Some(minor);
    }
  }

  lemma ParseAtDefault(text: string, precision: int)
    ensures ParseAmount(text, precision) == ParseAmount(text, EffectivePrecision(precision))
  {
  }

  // ----- applying the precision twice

  /** The amount can be applied again: its text fits the parser, and it is below the float64 limit. */
  predicate Reapplicable(a: nat, p: nat)
    requires p > 0
  {
    |AmountText(a, p)| <= MAX_TEXT && a < FloatOverflow() * p
  }

  lemma RoundsLinear(n: int, d: nat, m: int)
    requires Rounds(n, d, m)
    ensures 2 * (m * d) - d <= 2 * n < 2 * (m * d) + d
  {
    Odd(m, d);
  }

  /** Rounding to a finer or exact scale crosses a whole limit exactly when the amount does. */
  lemma {:induction false} RoundedBelow(a: nat, t: nat, p: nat, c: int, limit: nat)
    requires p > 0 && t > 0 && Rounds(a * t, p, c) && (c * p == a * t || t > p)
    ensures c < limit * t <==> a < limit * p
  {
    hide Rounds;
    RoundsLinear(a * t, p, c);
    var lp, lt, at, cp := limit * p, limit * t, a * t, c * p;
    var lpt := lp * t;
    assert lt * p == lpt by { Swap(limit, p, t); }
    if a < lp {
      assert at + t <= lpt by {
        MulMonotonic(a + 1, lp, t);
        assert (a + 1) * t == a * t + t;
      }
      MulCancelStrict(c, lt, p);
    } else {
      assert lpt <= at by { MulMonotonic(lp, a, t); }
      assert (2 * lt) * p == 2 * (lt * p);
      Odd(c, p);
      MulCancelStrict(2 * lt, 2 * c + 1, p);
    }
  }

  lemma {:induction false} FloatIsFinite(a: nat, p: nat)
    requires p > 0
    ensures ToFloat(Coefficient(a, p), Places(p)).Finite? <==> a < FloatOverflow() * p
  {
    hide FloatOverflow, Places, Terminates, RoundHalfUp;
    PlacesExact(p);
    if Terminates(p) {
      PrintedExactly(a, p);
    }
    RoundedBelow(a, Pow10(Places(p)), p, Coefficient(a, p), FloatOverflow());
  }

  lemma {:induction false} PrintedIsValid(m: Money, a: nat, p: nat)
    requires ValidMoney(m) && p > 0
    ensures ValidMoney(Printed(m, a, p)) <==> Reapplicable(a, p)
  {
    FloatIsFinite(a, p);
    if |AmountText(a, p)| <= MAX_TEXT {
      var c, places := ParseText(Coefficient(a, p), Places(p));
    }
  }

  lemma {:induction false} TrimmedToNothing(n: nat)
    ensures TrimZeros(Zeros(n)) == ""
  {
    if n > 0 {
      assert Zeros(n)[..n - 1] == Zeros(n - 1);
      TrimmedToNothing(n - 1);
    }
  }

  lemma {:induction false} ZeroCoefficient(p: nat)
    requires p > 0
    ensures Coefficient(0, p) == 0
  {
    assert 0 * Pow10(Places(p)) == 0;
    Odd(0, p);
    RoundsUnique(0, p, RoundHalfUp(0, p), 0);
  }

  lemma {:induction false} ZeroPointText(places: nat)
    ensures PointText(0, places) == "0"
  {
    assert Digits(0) == "0";
    assert Fraction(0, places) == Zeros(places);
    TrimmedToNothing(places);
  }

  lemma {:induction false} ZeroText(p: nat)
    requires p > 0
    ensures AmountText(0, p) == "0" && Reapplicable(0, p)
    ensures ParseAmount("0", p) == Err(NotPositive)
  {
    ZeroCoefficient(p);
    ZeroPointText(Places(p));
    MulMonotonic(1, FloatOverflow(), p);
    ParseWhole("0");
    assert Number("0") == 0 by {
      assert "0"[..0] == "";
    }
  }

  // ----- the text always fits at a scale that a float64 can hold

  lemma {:induction false} TimesBelow(n: nat, f: Factor, k: nat)
    requires 0 < n < Power(2, k)
    ensures Times(n, f) < k
    decreases k
  {
    if f.Divides(n) {
      var q := f.Quotient(n);
      assert 2 * q <= n;
      assert Power(2, k) == 2 * Power(2, k - 1);
      TimesBelow(q, f, k - 1);
    }
  }

  lemma {:induction false} WithoutBelow(n: nat, f: Factor)
    requires n > 0
    ensures Without(n, f) <= n
    decreases n
  {
    if f.Divides(n) {
      WithoutBelow(f.Quotient(n), f);
    }
  }

  lemma {:induction false} TwosBelowTens(k: nat)
    ensures Power(2, k) <= Pow10(k)
  {
    if k > 0 {
      TwosBelowTens(k - 1);
    }
  }

  lemma {:induction false} DigitsBelow(n: nat, k: nat)
    requires k > 0 && n < Pow10(k)
    ensures |Digits(n)| <= k
    decreases k
  {
    if n >= 10 {
      assert k > 1 by { assert Pow10(0) == 1; }
      assert Pow10(k) == 10 * Pow10(k - 1);
      DigitsBelow(n / 10, k - 1);
    }
  }

  lemma PlacesBelow(p: nat, k: nat)
    requires 0 < p < Power(2, k)
    ensures k > 0 && Places(p) <= k + 16
  {
    hide Power, Pow10, Times, Without, Digits;
    TimesBelow(p, Two, k);
    WithoutBelow(p, Two);
    TimesBelow(Without(p, Two), Five, k);
    TwosBelowTens(k);
    DigitsBelow(p, k);
  }

  lemma PointTextLength(c: nat, places: nat)
    ensures |PointText(c, places)| <= Max(1, |Digits(c)| - places) + 1 + places
  {
    hide Digits;
  }

  lemma {:induction false} TextBelow(a: nat, p: nat, k: nat)
    requires p > 0 && k > 0 && Coefficient(a, p) < Power(2, k) * Pow10(Places(p))
    ensures |AmountText(a, p)| <= k + 1 + Places(p)
  {
    hide Power, Pow10, Places, Coefficient, Digits, PointText;
    var c, places := Coefficient(a, p), Places(p);
    TwosBelowTens(k);
    MulMonotonic(Power(2, k), Pow10(k), Pow10(places));
    Pow10Add(k, places);
    DigitsBelow(c, k + places);
    PointTextLength(c, places);
  }

  /** At a scale that a float64 can hold the text of an amount below the float64 limit is never too
      long for the parser, so the limit alone decides. */
  lemma ReapplicableIff(a: nat, p: nat)
    requires 0 < p < Power(2, FLOAT_EXPONENT)
    ensures Reapplicable(a, p) <==> a < FloatOverflow() * p
  {
    hide Power, Pow10, Places, Coefficient, AmountText;
    if a < FloatOverflow() * p {
      FloatIsFinite(a, p);
      MulMonotonic(FloatOverflow(), Power(2, FLOAT_EXPONENT), Pow10(Places(p)));
      TextBelow(a, p, FLOAT_EXPONENT);
      PlacesBelow(p, FLOAT_EXPONENT);
    }
  }

  /** Applying the precision twice equals once exactly when the printed text fits the parser's
      cap and the amount is below the float64 limit at its scale; otherwise the second call reads
      the amount as zero. For the scales a float64 can hold, the limit alone decides. */
  lemma {:induction false} AppliedTwice(m: Money)
    requires ValidMoney(m)
    ensures var (once, a) := Applied(m);
            var p := EffectivePrecision(m.precision);
            && (Applied(once) == (once, a) <==> Reapplicable(a, p))
            && (!Reapplicable(a, p) ==> Applied(once) == (once, 0))
            && (p < Power(2, FLOAT_EXPONENT) ==> (Reapplicable(a, p) <==> a < FloatOverflow() * p))
  {
    hide Power, FloatOverflow;
    var a, p := MinorOf(m), EffectivePrecision(m.precision);
    PrintedIsValid(m, a, p);
    ZeroText(p);
    if p < Power(2, FLOAT_EXPONENT) {
      ReapplicableIff(a, p);
    }
  }

  /** Two to the power 1024 minor units at scale one: the second application returns zero. */
  lemma {:induction false} OverflowingAmount() returns (m: Money)
    ensures ValidMoney(m)
    ensures Applied(m).1 > 0 && Applied(Applied(m).0).1 == 0
  {
    var a := Power(2, FLOAT_EXPONENT);
    m := Money(Some(a), "", Finite(Decimal(0, 0)), 1, 0.0);
    assert FloatOverflow() * 1 < a;
    AppliedTwice(m);
  }
}
