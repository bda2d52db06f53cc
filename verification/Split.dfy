/** Splitting a transaction over several sources or destinations: the passes over a working state
    and the legs they produce. Go iterates its maps in any order, so the loops over maps pick keys
    in an arbitrary order. */
module Split {
  import opened Basics
  import opened Decimals
  import opened RealSums
  import opened StringOrder
  import opened Allocation
  import Amounts
  import Sums

  datatype Distribution = Distribution(identifier: string, distribution: string, precise: string, transactionId: string)

  datatype SplitError =
    | NegativeTotal | BadPrecision | NoDistributions | BadIdentifiers | BothForms | ManyLefts
    | TooLong | BadInteger | NegativeAmount | BadDecimal | AmountRequired | ExceedsRemaining
    | BadPercentage | NegativePercentage | ExceedsTotal | NothingAllocated

  // ----- reading one distribution

  predicate IsLeft(d: Distribution)
  {
    d.distribution == "left" || d.precise == "left"
  }

  predicate IsPercentage(d: Distribution)
  {
    d.distribution != "" && d.distribution[|d.distribution| - 1] == '%'
  }

  function Value(d: Decimal): (x: real)
    ensures x >= 0.0 <==> d.coefficient >= 0
  {
    if d.exponent >= 0 then
      WholeSign(d.coefficient, Pow10(d.exponent));
      (d.coefficient * Pow10(d.exponent)) as real
    else
      QuotientSign(d.coefficient as real, Pow10(-d.exponent) as real);
      d.coefficient as real / Pow10(-d.exponent) as real
  }

  lemma WholeSign(c: int, scale: int)
    requires scale > 0
    ensures c * scale >= 0 <==> c >= 0
  {
    if c < 0 {
      assert (-c - 1) * scale >= 0;
    }
  }

  lemma QuotientSign(c: real, scale: real)
    requires scale > 0.0
    ensures c / scale >= 0.0 <==> c >= 0.0
  {
    assert (c / scale) * scale == c;
  }

  lemma ProductSign(x: real, y: real)
    requires x >= 0.0 && y >= 0.0
    ensures x * y >= 0.0
  {
  }

  /** A decimal in major units, in minor units; not rounded. */
  function MinorUnits(x: Decimal, precision: int): (r: real)
    requires x.coefficient >= 0 && precision > 0
    ensures r >= 0.0
  {
    ProductSign(Value(x), precision as real);
    Value(x) * precision as real
  }

  /** An optional sign and decimal digits. */
  function ParseInteger(s: string): Option<int>
  {
    var digits := if s != "" && (s[0] == '+' || s[0] == '-') then s[1..] else s;
    if digits == "" || !AllDigits(digits) then None
    else if s[0] == '-' then Some(-(Number(digits) as int))
    else Some(Number(digits))
  }

  function FixedAmount(d: Distribution, precision: int): (r: Result<real, SplitError>)
    requires precision > 0
    ensures r.Ok? ==> r.value >= 0.0
  {
    if d.precise != "" then
      if |d.precise| > MAX_TEXT then Err(TooLong)
      else
        match ParseInteger(d.precise)
        case None => Err(BadInteger)
        case Some(n) => if n < 0 then Err(NegativeAmount) else Ok(n as real)
    else if d.distribution != "" then
      match Parse(d.distribution)
      case None => Err(BadDecimal)
      case Some(x) =>
        if x.coefficient < 0 then Err(NegativeAmount)
        else Ok(MinorUnits(x, precision))
    else Err(AmountRequired)
  }

  function Percentage(d: Distribution): (r: Result<real, SplitError>)
    requires IsPercentage(d)
    ensures r.Ok? ==> r.value >= 0.0
  {
    match Parse(d.distribution[..|d.distribution| - 1])
    case None => Err(BadPercentage)
    case Some(x) => if x.coefficient < 0 then Err(NegativePercentage) else Ok(Value(x))
  }

  function PartOf(d: Distribution, precision: int): (p: Part)
    requires precision > 0
    ensures p.Left? <==> IsLeft(d)
    ensures p.Fixed? ==> p.amount >= 0.0
    ensures p.Percent? ==> p.rate >= 0.0
  {
    if IsLeft(d) then Left
    else if IsPercentage(d) then
      match Percentage(d)
      case Ok(rate) => Percent(rate)
      case Err(_) => Malformed
    else
      match FixedAmount(d, precision)
      case Ok(amount) => Fixed(amount)
      case Err(_) => Malformed
  }

  // ----- reading a list of distributions

  predicate Unique(ds: seq<Distribution>)
  {
    forall i, j | 0 <= i < j < |ds| :: ds[i].identifier != ds[j].identifier
  }

  predicate WellFormed(ds: seq<Distribution>)
  {
    && Unique(ds)
    && (forall d | d in ds :: d.identifier != "" && (d.distribution == "" || d.precise == ""))
  }

  predicate AtMostOneLeft(ds: seq<Distribution>)
  {
    forall i, j | 0 <= i < j < |ds| :: !(IsLeft(ds[i]) && IsLeft(ds[j]))
  }

  predicate SomeLeft(ds: seq<Distribution>)
  {
    exists i | 0 <= i < |ds| :: IsLeft(ds[i])
  }

  function Ids(ds: seq<Distribution>): set<string>
  {
    if ds == [] then {} else Ids(ds[..|ds| - 1]) + {ds[|ds| - 1].identifier}
  }

  ghost function PartsOf(ds: seq<Distribution>, precision: int): Parts
    requires precision > 0
  {
    if ds == [] then map[]
    else
      var d := ds[|ds| - 1];
      PartsOf(ds[..|ds| - 1], precision)[d.identifier := PartOf(d, precision)]
  }

  /** When a split succeeds. */
  ghost predicate Splittable(total: Option<int>, ds: seq<Distribution>, precision: int)
  {
    && total.Some? && total.value >= 0 && precision > 0
    && WellFormed(ds) && Payable(total.value, PartsOf(ds, precision))
  }

  lemma {:induction false} PartsAt(ds: seq<Distribution>, precision: int, i: nat)
    requires precision > 0 && Unique(ds) && i < |ds|
    ensures ds[i].identifier in PartsOf(ds, precision)
    ensures PartsOf(ds, precision)[ds[i].identifier] == PartOf(ds[i], precision)
    decreases |ds|
  {
    if i < |ds| - 1 {
      PartsAt(ds[..|ds| - 1], precision, i);
    }
  }

  lemma {:induction false} KeysOfParts(ds: seq<Distribution>, precision: int)
    requires precision > 0
    ensures PartsOf(ds, precision).Keys == Ids(ds)
  {
    if ds != [] {
      KeysOfParts(ds[..|ds| - 1], precision);
    }
  }

  lemma {:induction false} IdAt(ds: seq<Distribution>, i: nat)
    requires i < |ds|
    ensures ds[i].identifier in Ids(ds)
  {
    if i < |ds| - 1 {
      IdAt(ds[..|ds| - 1], i);
    }
  }

  lemma {:induction false} IdFrom(ds: seq<Distribution>, k: string) returns (i: nat)
    requires k in Ids(ds)
    ensures i < |ds| && ds[i].identifier == k
  {
    var last := |ds| - 1;
    if ds[last].identifier == k {
      i := last;
    } else {
      i := IdFrom(ds[..last], k);
    }
  }

  /** A list grows without repeating an identifier exactly when the new one is not yet named. */
  lemma UniqueGrows(ds: seq<Distribution>, i: nat)
    requires i < |ds|
    ensures ds[..i + 1][..i] == ds[..i] && Ids(ds[..i + 1]) == Ids(ds[..i]) + {ds[i].identifier}
    ensures Unique(ds[..i + 1]) <==> Unique(ds[..i]) && ds[i].identifier !in Ids(ds[..i])
  {
    assert ds[..i + 1][..i] == ds[..i];
    if ds[i].identifier in Ids(ds[..i]) {
      var j := IdFrom(ds[..i], ds[i].identifier);
      assert ds[..i + 1][j].identifier == ds[..i + 1][i].identifier;
    } else {
      forall j | 0 <= j < i ensures ds[j].identifier != ds[i].identifier {
        IdAt(ds[..i], j);
      }
    }
  }

  // ----- order independence

  lemma TwiceInMultiset<T>(s: seq<T>, i: nat, j: nat)
    requires i < j < |s| && s[i] == s[j]
    ensures multiset(s)[s[i]] >= 2
  {
    var x := s[i];
    assert s == s[..i] + [x] + s[i + 1..];
    assert x == s[i + 1..][j - i - 1];
    assert x in multiset(s[i + 1..]);
  }

  lemma TwiceInSequence<T>(s: seq<T>, x: T) returns (i: nat, j: nat)
    requires multiset(s)[x] >= 2
    ensures i < j < |s| && s[i] == s[j] == x
  {
    assert x in multiset(s);
    i :| 0 <= i < |s| && s[i] == x;
    assert s == s[..i] + [x] + s[i + 1..];
    var others := s[..i] + s[i + 1..];
    assert multiset(s) == multiset(others) + multiset{x};
    assert x in multiset(others);
    j :| 0 <= j < |others| && others[j] == x;
    if j < i {
      i, j := j, i;
    } else {
      j := j + 1;
    }
  }

  lemma UniquePermuted(ds: seq<Distribution>, es: seq<Distribution>)
    requires multiset(ds) == multiset(es) && Unique(ds)
    ensures Unique(es)
  {
    forall i, j | 0 <= i < j < |es| ensures es[i].identifier != es[j].identifier {
      if es[i] == es[j] {
        TwiceInMultiset(es, i, j);
        var a, b := TwiceInSequence(ds, es[i]);
      } else {
        assert es[i] in multiset(es) && es[j] in multiset(es);
        assert es[i] in ds && es[j] in ds;
      }
    }
  }

  lemma PartsPermutedAt(ds: seq<Distribution>, es: seq<Distribution>, precision: int, k: string)
    requires precision > 0 && multiset(ds) == multiset(es) && Unique(ds) && Unique(es)
    requires k in PartsOf(ds, precision)
    ensures k in PartsOf(es, precision) && PartsOf(es, precision)[k] == PartsOf(ds, precision)[k]
  {
    KeysOfParts(ds, precision);
    var i := IdFrom(ds, k);
    PartsAt(ds, precision, i);
    assert ds[i] in multiset(es);
    var j :| 0 <= j < |es| && es[j] == ds[i];
    PartsAt(es, precision, j);
  }

  /** The order of the list never matters: neither for success nor for any amount. */
  lemma SplitOrderIndependent(total: Option<int>, ds: seq<Distribution>, es: seq<Distribution>, precision: int)
    requires multiset(ds) == multiset(es)
    ensures Splittable(total, ds, precision) <==> Splittable(total, es, precision)
    ensures Splittable(total, ds, precision) ==> PartsOf(ds, precision) == PartsOf(es, precision)
  {
    assert forall d :: d in ds <==> d in multiset(ds);
    assert forall d :: d in es <==> d in multiset(es);
    if precision > 0 && Unique(ds) {
      UniquePermuted(ds, es);
      PartsPermuted(ds, es, precision);
    } else if precision > 0 && Unique(es) {
      UniquePermuted(es, ds);
    }
  }

  lemma PartsPermuted(ds: seq<Distribution>, es: seq<Distribution>, precision: int)
    requires precision > 0 && multiset(ds) == multiset(es) && Unique(ds) && Unique(es)
    ensures PartsOf(ds, precision) == PartsOf(es, precision)
  {
    forall k | k in PartsOf(ds, precision)
      ensures k in PartsOf(es, precision) && PartsOf(es, precision)[k] == PartsOf(ds, precision)[k]
    {
      PartsPermutedAt(ds, es, precision, k);
    }
    forall k | k in PartsOf(es, precision) ensures k in PartsOf(ds, precision) {
      PartsPermutedAt(es, ds, precision, k);
    }
  }

  // ----- growing a list by one distribution

  lemma FreshIdentifier(ds: seq<Distribution>, precision: int, i: nat)
    requires precision > 0 && Unique(ds) && i < |ds|
    ensures ds[i].identifier !in PartsOf(ds[..i], precision)
  {
    KeysOfParts(ds[..i], precision);
    UniqueGrows(ds, i);
  }

  lemma OneMore(ds: seq<Distribution>, precision: int, i: nat)
    requires precision > 0 && i < |ds|
    ensures PartsOf(ds[..i + 1], precision) == PartsOf(ds[..i], precision)[ds[i].identifier := PartOf(ds[i], precision)]
  {
    assert ds[..i + 1][..i] == ds[..i];
  }

  lemma PrefixParts(ds: seq<Distribution>, precision: int, i: nat)
    requires precision > 0 && Unique(ds) && i <= |ds|
    ensures forall k | k in PartsOf(ds[..i], precision) ::
      k in PartsOf(ds, precision) && PartsOf(ds, precision)[k] == PartsOf(ds[..i], precision)[k]
  {
    KeysOfParts(ds[..i], precision);
    forall k | k in PartsOf(ds[..i], precision)
      ensures k in PartsOf(ds, precision) && PartsOf(ds, precision)[k] == PartsOf(ds[..i], precision)[k]
    {
      var j := IdFrom(ds[..i], k);
      PartsAt(ds[..i], precision, j);
      PartsAt(ds, precision, j);
    }
  }

  lemma NoParts(total: real)
    ensures FixedAmounts(map[]) == Rates(map[]) == Shares(total, map[]) == map[]
  {
  }

  lemma OneMoreFixed(p: Parts, k: string, part: Part)
    requires k !in p
    ensures FixedAmounts(p[k := part]) == if part.Fixed? then FixedAmounts(p)[k := part.amount] else FixedAmounts(p)
    ensures k !in FixedAmounts(p)
  {
  }

  lemma OneMorePercent(p: Parts, k: string, part: Part, total: real)
    requires k !in p
    ensures Rates(p[k := part]) == if part.Percent? then Rates(p)[k := part.rate] else Rates(p)
    ensures Shares(total, p[k := part]) ==
            if part.Percent? then Shares(total, p)[k := Share(total, part.rate)] else Shares(total, p)
    ensures k !in Rates(p)
  {
  }

  /** The first n distributions hold no fixed amount that cannot be read. */
  ghost predicate FixedReadable(ds: seq<Distribution>, precision: int, n: nat)
    requires precision > 0 && n <= |ds|
  {
    forall i | 0 <= i < n :: PartOf(ds[i], precision).Malformed? ==> IsPercentage(ds[i])
  }

  ghost predicate PercentagesReadable(ds: seq<Distribution>, precision: int, n: nat)
    requires precision > 0 && n <= |ds|
  {
    forall i | 0 <= i < n :: PartOf(ds[i], precision).Malformed? ==> !IsPercentage(ds[i])
  }

  ghost function FixedUpTo(ds: seq<Distribution>, precision: int, n: nat): map<string, real>
    requires precision > 0 && n <= |ds|
  {
    FixedAmounts(PartsOf(ds[..n], precision))
  }

  ghost function RatesUpTo(ds: seq<Distribution>, precision: int, n: nat): map<string, real>
    requires precision > 0 && n <= |ds|
  {
    Rates(PartsOf(ds[..n], precision))
  }

  ghost function SharesUpTo(ds: seq<Distribution>, precision: int, n: nat, total: real): map<string, real>
    requires precision > 0 && n <= |ds|
  {
    Shares(total, PartsOf(ds[..n], precision))
  }

  lemma FixedStep(ds: seq<Distribution>, precision: int, i: nat, part: Part)
    requires precision > 0 && Unique(ds) && i < |ds| && part == PartOf(ds[i], precision)
    ensures !part.Fixed? ==> FixedUpTo(ds, precision, i + 1) == FixedUpTo(ds, precision, i)
    ensures part.Fixed? ==> FixedUpTo(ds, precision, i + 1) == FixedUpTo(ds, precision, i)[ds[i].identifier := part.amount]
    ensures part.Fixed? ==> Sum(FixedUpTo(ds, precision, i + 1)) == Sum(FixedUpTo(ds, precision, i)) + part.amount
  {
    hide Sum, FixedAmounts;
    FreshIdentifier(ds, precision, i);
    OneMore(ds, precision, i);
    OneMoreFixed(PartsOf(ds[..i], precision), ds[i].identifier, part);
    if part.Fixed? {
      Put(FixedUpTo(ds, precision, i), ds[i].identifier, part.amount);
    }
  }

  lemma PercentStep(ds: seq<Distribution>, precision: int, i: nat, part: Part, total: real)
    requires precision > 0 && Unique(ds) && i < |ds| && part == PartOf(ds[i], precision)
    ensures !part.Percent? ==> Sum(RatesUpTo(ds, precision, i + 1)) == Sum(RatesUpTo(ds, precision, i))
    ensures !part.Percent? ==> SharesUpTo(ds, precision, i + 1, total) == SharesUpTo(ds, precision, i, total)
    ensures part.Percent? ==> Sum(RatesUpTo(ds, precision, i + 1)) == Sum(RatesUpTo(ds, precision, i)) + part.rate
    ensures part.Percent? ==>
      SharesUpTo(ds, precision, i + 1, total) == SharesUpTo(ds, precision, i, total)[ds[i].identifier := Share(total, part.rate)]
  {
    hide Sum, Shares, Rates, Share;
    FreshIdentifier(ds, precision, i);
    OneMore(ds, precision, i);
    OneMorePercent(PartsOf(ds[..i], precision), ds[i].identifier, part, total);
    if part.Percent? {
      Put(RatesUpTo(ds, precision, i), ds[i].identifier, part.rate);
    }
  }

  lemma FixedGrow(ds: seq<Distribution>, precision: int, i: nat)
    requires precision > 0 && Unique(ds) && i <= |ds|
    ensures Sum(FixedUpTo(ds, precision, i)) <= Sum(FixedAmounts(PartsOf(ds, precision)))
  {
    hide Sum;
    PrefixParts(ds, precision, i);
    AmountsNonNegative(ds, precision);
    Below(FixedAmounts(PartsOf(ds[..i], precision)), FixedAmounts(PartsOf(ds, precision)));
  }

  lemma {:induction false} AmountsNonNegative(ds: seq<Distribution>, precision: int)
    requires precision > 0
    ensures forall k | k in PartsOf(ds, precision) :: PartsOf(ds, precision)[k].Fixed? ==> PartsOf(ds, precision)[k].amount >= 0.0
    ensures forall k | k in PartsOf(ds, precision) :: PartsOf(ds, precision)[k].Percent? ==> PartsOf(ds, precision)[k].rate >= 0.0
  {
    if ds != [] {
      AmountsNonNegative(ds[..|ds| - 1], precision);
    }
  }

  // ----- sums and maxima over maps, in any order

  method AddUp(m: map<string, real>) returns (sum: real)
    ensures sum == Sum(m)
  {
    sum := 0.0;
    var rest := m;
    while rest != map[]
      invariant sum + Sum(rest) == Sum(m)
      decreases |rest|
    {
      var k :| k in rest;
      sum := sum + rest[k];
      Remove(rest, k);
      assert |rest - {k}| < |rest| by { assert (rest - {k}).Keys == rest.Keys - {k}; }
      rest := rest - {k};
    }
  }

  method FindLargest(amounts: map<string, real>) returns (largest: string, amount: real)
    requires "" !in amounts
    ensures amounts == map[] <==> largest == ""
    ensures amounts != map[] ==> largest == Largest(amounts) && amount == amounts[largest]
  {
    largest, amount := "", 0.0;
    var rest := amounts;
    while rest != map[]
      invariant forall k | k in rest :: k in amounts && rest[k] == amounts[k]
      invariant largest == "" <==> rest == amounts
      invariant largest != "" ==> largest in amounts && amount == amounts[largest]
      invariant largest != "" ==> forall k | k in amounts && k !in rest :: Tops(amount, largest, amounts[k], k)
      decreases |rest|
    {
      var id :| id in rest;
      ghost var before, best := largest, amount;
      TopsTotal(amount, largest, rest[id], id);
      if largest == "" || rest[id] > amount || (rest[id] == amount && Less(id, largest)) {
        largest, amount := id, rest[id];
      }
      assert before != "" ==> Tops(amount, largest, best, before) && Tops(amount, largest, rest[id], id) by {
        if before != "" && rest[id] == best && !Less(id, before) {
          Connected(id, before);
        }
      }
      forall k | k in amounts && k !in rest ensures Tops(amount, largest, amounts[k], k) {
        TopsTransitive(amount, largest, best, before, amounts[k], k);
      }
      assert |rest - {id}| < |rest| by { assert (rest - {id}).Keys == rest.Keys - {id}; }
      rest := rest - {id};
      assert id in amounts && id !in rest;
    }
    if amounts != map[] {
      assert IsLargest(amounts, largest);
      LargestIsUnique(amounts, largest, Largest(amounts));
    }
  }

  // ----- the passes

  /** Towards zero, as a decimal's integer part is taken. */
  function Truncate(x: real): int
  {
    if x >= 0.0 then x.Floor else -((-x).Floor)
  }

  lemma TruncateWhole(n: int)
    ensures Truncate(n as real) == n
  {
  }

  /** The allocations before "left" is filled in. */
  ghost function FloorsBeforeLeft(total: real, p: Parts): map<string, int>
  {
    map k | k in p && !p[k].Left? :: Exact(total, p)[k].Floor
  }

  lemma ExactOf(total: real, p: Parts)
    ensures forall k | k in p && p[k].Fixed? :: Exact(total, p)[k] == FixedAmounts(p)[k]
    ensures forall k | k in p && p[k].Percent? :: Exact(total, p)[k] == Adjusted(total, p)[k]
  {
  }

  class DistributionState {
    const total: real
    const precision: int
    var amountLeft: real
    var totalPercentage: real
    var fixedTotal: real
    var fixedAmounts: map<string, real>
    var percentAmounts: map<string, real>
    var result: map<string, int>

    constructor (total: nat, precision: int)
      requires precision > 0
      ensures this.total == total as real == amountLeft && this.precision == precision
      ensures totalPercentage == fixedTotal == 0.0
      ensures fixedAmounts == percentAmounts == map[] && result == map[]
    {
      this.total, this.precision, amountLeft := total as real, precision, total as real;
      totalPercentage, fixedTotal, fixedAmounts, percentAmounts, result := 0.0, 0.0, map[], map[], map[];
    }

    method ProcessFixedDistributions(ds: seq<Distribution>) returns (failure: Option<SplitError>)
      requires precision > 0 && Unique(ds) && total >= 0.0
      requires fixedAmounts == map[] && fixedTotal == 0.0 && amountLeft == total
      modifies this`amountLeft, this`fixedTotal, this`fixedAmounts
      ensures failure.None? <==> FixedReadable(ds, precision, |ds|) && Sum(FixedAmounts(PartsOf(ds, precision))) <= total
      ensures failure.None? ==> fixedAmounts == FixedAmounts(PartsOf(ds, precision)) && fixedTotal == Sum(fixedAmounts)
      ensures failure.None? ==> amountLeft == total - fixedTotal >= 0.0
    {
      assert ds[..|ds|] == ds && fixedAmounts == FixedUpTo(ds, precision, 0) by { NoParts(total); }
      Nothing<string>();
      hide Sum, FixedAmounts, PartsOf, FixedAmount, Percentage, IsLeft, IsPercentage, Unique;
      for i := 0 to |ds|
        invariant fixedAmounts == FixedUpTo(ds, precision, i) && fixedTotal == Sum(fixedAmounts)
        invariant amountLeft == total - fixedTotal >= 0.0
        invariant FixedReadable(ds, precision, i)
      {
        var d := ds[i];
        FixedStep(ds, precision, i, PartOf(d, precision));
        if IsLeft(d) || IsPercentage(d) {
          continue;
        }
        var amount := FixedAmount(d, precision);
        if amount.Err? {
          return Some(amount.error);
        }
        if amount.value > amountLeft {
          FixedGrow(ds, precision, i + 1);
          return Some(ExceedsRemaining);
        }
        fixedAmounts := fixedAmounts[d.identifier := amount.value];
        fixedTotal := fixedTotal + amount.value;
        amountLeft := amountLeft - amount.value;
      }
      failure := None;
    }

    method ProcessPercentageDistributions(ds: seq<Distribution>) returns (failure: Option<SplitError>)
      requires precision > 0 && Unique(ds)
      requires percentAmounts == map[] && totalPercentage == 0.0
      modifies this`totalPercentage, this`percentAmounts
      ensures failure.None? <==> PercentagesReadable(ds, precision, |ds|)
      ensures failure.None? ==> percentAmounts == Shares(total, PartsOf(ds, precision))
      ensures failure.None? ==> totalPercentage == Sum(Rates(PartsOf(ds, precision)))
    {
      assert RatesUpTo(ds, precision, 0) == SharesUpTo(ds, precision, 0, total) == map[] by { NoParts(total); }
      assert ds[..|ds|] == ds;
      Nothing<string>();
      hide Sum, Shares, Rates, Share, PartsOf, FixedAmount, Percentage, IsLeft, IsPercentage, Unique;
      for i := 0 to |ds|
        invariant percentAmounts == SharesUpTo(ds, precision, i, total)
        invariant totalPercentage == Sum(RatesUpTo(ds, precision, i))
        invariant PercentagesReadable(ds, precision, i)
      {
        var d := ds[i];
        PercentStep(ds, precision, i, PartOf(d, precision), total);
        if IsLeft(d) || !IsPercentage(d) {
          continue;
        }
        var rate := Percentage(d);
        if rate.Err? {
          return Some(rate.error);
        }
        totalPercentage := totalPercentage + rate.value;
        percentAmounts := percentAmounts[d.identifier := Share(total, rate.value)];
      }
      failure := None;
    }

    method AdjustPercentageAmounts(ghost p: Parts)
      requires "" !in percentAmounts
      requires percentAmounts == Shares(total, p) && totalPercentage == Sum(Rates(p))
      modifies this`percentAmounts
      ensures percentAmounts == Adjusted(total, p)
    {
      hide Sum, Share;
      if percentAmounts == map[] {
        return;
      }
      var target := RawShare(total, totalPercentage);
      var current := AddUp(percentAmounts);
      var diff := target - current;
      var k, amount := FindLargest(percentAmounts);
      if diff == 0.0 {
        assert percentAmounts == percentAmounts[k := percentAmounts[k] + diff];
        return;
      }
      if k != "" && amount > 0.0 {
        percentAmounts := percentAmounts[k := percentAmounts[k] + diff];
      }
    }

    method WriteFixedAmounts()
      requires result == map[]
      requires forall k | k in fixedAmounts :: fixedAmounts[k] >= 0.0
      modifies this`result
      ensures result == Floors(fixedAmounts)
    {
      var rest := fixedAmounts;
      while rest != map[]
        invariant forall k | k in rest :: k in fixedAmounts && rest[k] == fixedAmounts[k]
        invariant forall k :: k in result <==> k in fixedAmounts && k !in rest
        invariant forall k | k in result :: result[k] == fixedAmounts[k].Floor
        decreases |rest|
      {
        var k :| k in rest;
        result := result[k := Truncate(rest[k])];
        assert |rest - {k}| < |rest| by { assert (rest - {k}).Keys == rest.Keys - {k}; }
        rest := rest - {k};
      }
    }

    method WritePercentAmounts()
      requires forall k | k in percentAmounts :: k !in result && percentAmounts[k] >= 0.0
      modifies this`result, this`amountLeft
      ensures forall k :: k in result <==> k in old(result) || k in percentAmounts
      ensures forall k | k in old(result) :: result[k] == old(result)[k]
      ensures forall k | k in percentAmounts :: result[k] == percentAmounts[k].Floor
      ensures amountLeft == old(amountLeft) - Sum(percentAmounts)
    {
      Nothing<string>();
      hide Sum;
      var rest := percentAmounts;
      while rest != map[]
        invariant forall k | k in rest :: k in percentAmounts && rest[k] == percentAmounts[k]
        invariant forall k :: k in result <==> k in old(result) || (k in percentAmounts && k !in rest)
        invariant forall k | k in old(result) :: result[k] == old(result)[k]
        invariant forall k | k in percentAmounts && k !in rest :: result[k] == percentAmounts[k].Floor
        invariant amountLeft == old(amountLeft) - Sum(percentAmounts) + Sum(rest)
        decreases |rest|
      {
        var k :| k in rest;
        result := result[k := Truncate(rest[k])];
        amountLeft := amountLeft - rest[k];
        Remove(rest, k);
        assert |rest - {k}| < |rest| by { assert (rest - {k}).Keys == rest.Keys - {k}; }
        rest := rest - {k};
      }
    }

    method CombineDistributions(ghost p: Parts)
      requires total >= 0.0 && Sound(p) && result == map[]
      requires fixedAmounts == FixedAmounts(p) && percentAmounts == Adjusted(total, p)
      requires amountLeft == total - Sum(FixedAmounts(p))
      modifies this`result, this`amountLeft
      ensures result == FloorsBeforeLeft(total, p) && amountLeft == Rest(total, p)
    {
      hide Sum, Adjusted, Exact, Target, OneLeft, HasLeft, Shares;
      AdjustedReachesTarget(total, p);
      KeysOfAdjusted(total, p);
      ExactOf(total, p);
      WriteFixedAmounts();
      WritePercentAmounts();
    }

    method ProcessLeftDistribution(ds: seq<Distribution>, ghost p: Parts) returns (failure: Option<SplitError>)
      requires precision > 0 && Unique(ds) && p == PartsOf(ds, precision) && OneLeft(p)
      requires result == FloorsBeforeLeft(total, p) && amountLeft == Rest(total, p) >= 0.0
      modifies this`result
      ensures failure.None? && result == Floors(Exact(total, p))
    {
      hide Adjusted, Rest, PartsOf, PartOf;
      for i := 0 to |ds|
        invariant result == old(result)
        invariant forall j | 0 <= j < i :: !IsLeft(ds[j])
      {
        var d := ds[i];
        PartsAt(ds, precision, i);
        if !IsLeft(d) {
          continue;
        }
        assert p[d.identifier].Left?;
        if d.identifier in result {
          return Some(ManyLefts);
        }
        result := result[d.identifier := Truncate(amountLeft)];
        return None;
      }
      KeysOfParts(ds, precision);
      forall k | k in p ensures !p[k].Left? {
        var i := IdFrom(ds, k);
        PartsAt(ds, precision, i);
      }
      failure := None;
    }

    method BalanceDistributions(ghost n: nat)
      requires total == n as real && "" !in result && result != map[]
      modifies this`result
      ensures
        var k := Largest(Reals(old(result)));
        result == old(result)[k := old(result)[k] + (n - Sums.Total(old(result)))]
    {
      hide Sum, Sums.Total, IsLargest, Truncate;
      SumOfReals(result);
      TruncateWhole(n - Sums.Total(result));
      var sum := AddUp(Reals(result));
      var largest, amount := FindLargest(Reals(result));
      if sum == total {
        assert result == result[largest := result[largest]];
        return;
      }
      if largest != "" {
        result := result[largest := result[largest] + Truncate(total - sum)];
      }
    }
  }

  // ----- the whole calculation

  ghost function LeftCount(ds: seq<Distribution>): nat
  {
    if ds == [] then 0 else LeftCount(ds[..|ds| - 1]) + if IsLeft(ds[|ds| - 1]) then 1 else 0
  }

  lemma {:induction false} CountLefts(ds: seq<Distribution>)
    ensures LeftCount(ds) > 0 <==> SomeLeft(ds)
    ensures LeftCount(ds) <= 1 <==> AtMostOneLeft(ds)
  {
    hide IsLeft;
    if ds != [] {
      var last := |ds| - 1;
      var front := ds[..last];
      CountLefts(front);
      assert forall i | 0 <= i < last :: front[i] == ds[i];
      assert SomeLeft(ds) <==> SomeLeft(front) || IsLeft(ds[last]);
      assert AtMostOneLeft(ds) <==> AtMostOneLeft(front) && !(SomeLeft(front) && IsLeft(ds[last]));
    }
  }

  method CheckDistributions(ds: seq<Distribution>) returns (failure: Option<SplitError>, lefts: nat)
    ensures failure.None? <==> WellFormed(ds) && AtMostOneLeft(ds)
    ensures failure.None? ==> (lefts > 0 <==> SomeLeft(ds))
  {
    hide IsLeft, Unique, AtMostOneLeft, SomeLeft, Ids;
    var seen: set<string> := {};
    lefts := 0;
    assert Unique(ds[..0]) && Ids(ds[..0]) == {} by { NoIds(); }
    for i := 0 to |ds|
      invariant seen == Ids(ds[..i]) && Unique(ds[..i]) && lefts == LeftCount(ds[..i])
      invariant forall j | 0 <= j < i :: ds[j].identifier != "" && (ds[j].distribution == "" || ds[j].precise == "")
    {
      UniqueGrows(ds, i);
      if ds[i].identifier == "" || ds[i].identifier in seen {
        UniquePrefix(ds, i + 1);
        return Some(BadIdentifiers), lefts;
      }
      seen := seen + {ds[i].identifier};
      if ds[i].distribution != "" && ds[i].precise != "" {
        return Some(BothForms), lefts;
      }
      if IsLeft(ds[i]) {
        lefts := lefts + 1;
      }
    }
    assert ds[..|ds|] == ds;
    CountLefts(ds);
    failure := if lefts > 1 then Some(ManyLefts) else None;
  }

  lemma NoIds()
    ensures Unique([]) && Ids([]) == {}
  {
  }

  lemma UniquePrefix(ds: seq<Distribution>, n: nat)
    requires n <= |ds|
    ensures Unique(ds) ==> Unique(ds[..n])
  {
  }

  /** What the checks on the list say about its parts. */
  lemma PartsSound(ds: seq<Distribution>, precision: int)
    requires precision > 0 && WellFormed(ds)
    ensures Sound(PartsOf(ds, precision)) <==>
      FixedReadable(ds, precision, |ds|) && PercentagesReadable(ds, precision, |ds|) && AtMostOneLeft(ds)
    ensures "" !in PartsOf(ds, precision)
    ensures HasLeft(PartsOf(ds, precision)) <==> SomeLeft(ds)
    ensures PartsOf(ds, precision) == map[] <==> ds == []
  {
    hide PartsOf, PartOf, IsLeft, IsPercentage, Ids;
    var p := PartsOf(ds, precision);
    AmountsNonNegative(ds, precision);
    KeysOfParts(ds, precision);
    forall i | 0 <= i < |ds| ensures ds[i].identifier in p && p[ds[i].identifier] == PartOf(ds[i], precision) {
      PartsAt(ds, precision, i);
    }
    forall k | k in p ensures exists i | 0 <= i < |ds| :: ds[i].identifier == k {
      var i := IdFrom(ds, k);
    }
    assert ds != [] ==> ds[0].identifier in p;
  }

  method HandleZeroAmount(ds: seq<Distribution>) returns (result: map<string, int>)
    ensures result.Keys == Ids(ds)
    ensures forall k | k in result :: result[k] == 0
  {
    result := map[];
    for i := 0 to |ds|
      invariant result.Keys == Ids(ds[..i])
      invariant forall k | k in result :: result[k] == 0
    {
      assert ds[..i + 1][..i] == ds[..i];
      result := result[ds[i].identifier := 0];
    }
    assert ds[..|ds|] == ds;
  }

  method ReadParts(state: DistributionState, ds: seq<Distribution>) returns (failure: Option<SplitError>)
    requires state.precision > 0 && WellFormed(ds) && AtMostOneLeft(ds) && state.total == state.amountLeft >= 0.0
    requires state.fixedAmounts == state.percentAmounts == map[] && state.fixedTotal == state.totalPercentage == 0.0
    modifies state
    ensures state.result == old(state.result)
    ensures
      var p := PartsOf(ds, state.precision);
      && (failure.None? <==> Sound(p) && Sum(FixedAmounts(p)) <= state.total)
      && (failure.None? ==> state.fixedAmounts == FixedAmounts(p) && state.percentAmounts == Shares(state.total, p))
      && (failure.None? ==> state.fixedTotal == Sum(FixedAmounts(p)) && state.totalPercentage == Sum(Rates(p)))
      && (failure.None? ==> state.amountLeft == state.total - Sum(FixedAmounts(p)))
  {
    PartsSound(ds, state.precision);
    hide Sum, Shares, Rates, FixedAmounts, FixedReadable, PercentagesReadable, PartsOf, Sound, IsLeft, HasLeft, OneLeft;
    failure := state.ProcessFixedDistributions(ds);
    if failure.Some? {
      return;
    }
    failure := state.ProcessPercentageDistributions(ds);
  }

  method AdjustAndCombine(state: DistributionState, ghost p: Parts)
    requires state.total >= 0.0 && Sound(p) && "" !in p && state.result == map[]
    requires state.fixedAmounts == FixedAmounts(p) && state.percentAmounts == Shares(state.total, p)
    requires state.totalPercentage == Sum(Rates(p)) && state.amountLeft == state.total - Sum(FixedAmounts(p))
    modifies state`percentAmounts, state`result, state`amountLeft
    ensures state.result == FloorsBeforeLeft(state.total, p) && state.amountLeft == Rest(state.total, p)
  {
    state.AdjustPercentageAmounts(p);
    state.CombineDistributions(p);
  }

  lemma AllocatedFrom(n: nat, p: Parts)
    requires n > 0 && Payable(n, p)
    ensures OneLeft(p) && Floors(Exact(n as real, p)).Keys == p.Keys && Floors(Exact(n as real, p)) != map[]
    ensures
      var f := Floors(Exact(n as real, p));
      Reals(f) != map[] && Allocate(n, p) == f[Largest(Reals(f)) := f[Largest(Reals(f))] + (n - Sums.Total(f))]
  {
    hide Exact, IsLargest, Sums.Total;
    KeysOfExact(n as real, p);
    assert Reals(Floors(Exact(n as real, p))).Keys == p.Keys;
  }

  method PayOut(state: DistributionState, ds: seq<Distribution>, ghost n: nat)
    requires state.precision > 0 && Unique(ds) && state.total == n as real && n > 0
    requires
      var p := PartsOf(ds, state.precision);
      && Payable(n, p) && "" !in p
      && state.result == FloorsBeforeLeft(state.total, p) && state.amountLeft == Rest(state.total, p)
    modifies state`result
    ensures state.result == Allocate(n, PartsOf(ds, state.precision))
  {
    hide *;
    ghost var p := PartsOf(ds, state.precision);
    RestNonNegative(n, p);
    AllocatedFrom(n, p);
    var failure := state.ProcessLeftDistribution(ds, p);
    state.BalanceDistributions(n);
  }

  method AllocateParts(n: nat, ds: seq<Distribution>, precision: int, lefts: nat) returns (r: Result<map<string, int>, SplitError>)
    requires precision > 0 && ds != [] && WellFormed(ds) && AtMostOneLeft(ds)
    requires lefts > 0 <==> SomeLeft(ds)
    ensures r.Ok? <==> Payable(n, PartsOf(ds, precision))
    ensures r.Ok? ==> r.value == Allocate(n, PartsOf(ds, precision))
  {
    ghost var p := PartsOf(ds, precision);
    PartsSound(ds, precision);
    assert Sound(p) ==> Target(n as real, p) >= 0.0 by {
      if Sound(p) {
        SharesBelowTarget(n as real, p);
      }
    }
    hide Sum, RawShare, Shares, Rates, FixedAmounts, PartsOf, Sound, IsLeft, HasLeft, WellFormed, OneLeft, Allocate;
    var state := new DistributionState(n, precision);
    var failure := ReadParts(state, ds);
    if failure.Some? {
      return Err(failure.value);
    }
    if state.totalPercentage > 100.0 || state.fixedTotal + RawShare(state.total, state.totalPercentage) > state.total {
      return Err(ExceedsTotal);
    }
    if n == 0 {
      var zeros := HandleZeroAmount(ds);
      ZerosAllocated(ds, precision, zeros);
      return Ok(zeros);
    }
    AdjustAndCombine(state, p);
    if state.fixedTotal == 0.0 && state.totalPercentage == 0.0 && lefts == 0 {
      return Err(NothingAllocated);
    }
    PayOut(state, ds, n);
    return Ok(state.result);
  }

  /** Succeeds exactly when the parts can be paid out of the total, with an allocation that
      depends only on the parts. */
  method CalculateDistributionsPrecise(total: Option<int>, ds: seq<Distribution>, precision: int)
    returns (r: Result<map<string, int>, SplitError>)
    ensures r.Ok? <==> Splittable(total, ds, precision)
    ensures r.Ok? ==> r.value == Allocate(total.value, PartsOf(ds, precision))
  {
    if total.None? || total.value < 0 {
      return Err(NegativeTotal);
    }
    if precision <= 0 {
      return Err(BadPrecision);
    }
    if ds == [] {
      return Err(NoDistributions);
    }
    hide WellFormed, Allocate, PartsOf, Sound, Target, HasLeft, Sum, Rates, FixedAmounts, SomeLeft, AtMostOneLeft;
    assert WellFormed(ds) && Sound(PartsOf(ds, precision)) ==> AtMostOneLeft(ds) by {
      if WellFormed(ds) {
        PartsSound(ds, precision);
      }
    }
    var failure, lefts := CheckDistributions(ds);
    if failure.Some? {
      return Err(failure.value);
    }
    r := AllocateParts(total.value, ds, precision, lefts);
  }

  lemma ZerosAllocated(ds: seq<Distribution>, precision: int, zeros: map<string, int>)
    requires precision > 0 && ds != []
    requires zeros.Keys == Ids(ds) && forall k | k in zeros :: zeros[k] == 0
    ensures PartsOf(ds, precision) != map[] && zeros == Allocate(0, PartsOf(ds, precision))
  {
    KeysOfParts(ds, precision);
    IdAt(ds, 0);
    assert ds[0].identifier in PartsOf(ds, precision);
  }

  // ----- the legs

  datatype Leg = Leg(transactionId: string, preciseAmount: int, amountString: string, amount: Amounts.Float, hash: string,
                     source: string, destination: string, parent: string, reference: string)

  /** The text a transaction's hash covers. */
  function HashText(amount: Amounts.Float, reference: string, currency: string, source: string, destination: string): string
  {
    (if amount.Finite? then Text(amount.value) else "+Inf") + reference + currency + source + destination
  }

  function LegTotal(legs: seq<Leg>): int
  {
    if legs == [] then 0 else LegTotal(legs[..|legs| - 1]) + legs[|legs| - 1].preciseAmount
  }

  lemma {:induction false} LegsAddUp(legs: seq<Leg>, ds: seq<Distribution>, m: map<string, int>)
    requires Unique(ds) && |legs| == |ds| && m.Keys == Ids(ds)
    requires forall i | 0 <= i < |ds| :: ds[i].identifier in m && legs[i].preciseAmount == m[ds[i].identifier]
    ensures LegTotal(legs) == Sums.Total(m)
    decreases |ds|
  {
    hide Sums.Total;
    if ds == [] {
      assert m == map[];
      Sums.Zero(m);
    } else {
      var last := |ds| - 1;
      var id := ds[last].identifier;
      Sums.Remove(m, id);
      UniqueGrows(ds, last);
      assert ds[..last + 1] == ds;
      LegsAddUp(legs[..last], ds[..last], m - {id});
    }
  }

  method Attribute(ds: seq<Distribution>, identifier: string, transactionId: string) returns (r: seq<Distribution>)
    ensures |r| == |ds|
    ensures forall i | 0 <= i < |ds| ::
      r[i] == if ds[i].identifier == identifier then ds[i].(transactionId := transactionId) else ds[i]
  {
    r := ds;
    for i := 0 to |ds|
      invariant |r| == |ds|
      invariant forall j | 0 <= j < |ds| ::
        r[j] == if j < i && ds[j].identifier == identifier then ds[j].(transactionId := transactionId) else ds[j]
    {
      if r[i].identifier == identifier {
        r := r[i := r[i].(transactionId := transactionId)];
      }
    }
  }

  /** The first n distributions carry the IDs of their legs. */
  ghost predicate Attributed(before: seq<Distribution>, after: seq<Distribution>, newId: nat -> string, n: nat)
  {
    |after| == |before| &&
    forall i | 0 <= i < |before| :: after[i] == if i < n then before[i].(transactionId := newId(i)) else before[i]
  }

  /** Fresh transaction IDs and the hash function. */
  datatype Supplies = Supplies(newId: nat -> string, digest: string -> string)

  const MAX_PRECISION := 0x8000_0000_0000_0000

  class Transaction {
    const transactionId: string
    const reference: string
    const currency: string
    const source: string
    const destination: string
    const preciseAmount: Option<int>
    const precision: int
    var sources: seq<Distribution>
    var destinations: seq<Distribution>

    constructor (transactionId: string, reference: string, currency: string, source: string, destination: string,
                 preciseAmount: Option<int>, precision: int, sources: seq<Distribution>, destinations: seq<Distribution>)
    {
      this.transactionId, this.reference, this.currency := transactionId, reference, currency;
      this.source, this.destination := source, destination;
      this.preciseAmount, this.precision := preciseAmount, precision;
      this.sources, this.destinations := sources, destinations;
    }

    ghost predicate CanSplit(ds: seq<Distribution>)
    {
      0 < precision < MAX_PRECISION && Splittable(preciseAmount, ds, precision)
    }

    /** The leg for the i-th distribution of the split side. Its hash is taken before the leg gets its
        own reference and party, so it covers those of the split transaction. */
    ghost predicate IsLeg(leg: Leg, bySource: bool, ds: seq<Distribution>, amounts: map<string, int>, supplies: Supplies, i: nat)
      requires precision > 0 && i < |ds| && ds[i].identifier in amounts && amounts[ds[i].identifier] >= 0
    {
      var amount := amounts[ds[i].identifier];
      && leg.preciseAmount == amount && leg.transactionId == supplies.newId(i)
      && leg.amountString == Amounts.AmountText(amount, precision)
      && leg.amount == Amounts.ToFloat(Amounts.Coefficient(amount, precision), Amounts.Places(precision))
      && leg.hash == supplies.digest(HashText(leg.amount, reference, currency, source, destination))
      && leg.parent == transactionId && leg.reference == reference + "-" + Digits(i + 1)
      && leg.source == (if bySource then ds[i].identifier else source)
      && leg.destination == (if bySource then destination else ds[i].identifier)
    }

    /** Legs in caller order; each distribution gets the ID of its own leg. */
    method EmitLegs(bySource: bool, ds: seq<Distribution>, amounts: map<string, int>, supplies: Supplies)
      returns (legs: seq<Leg>, after: seq<Distribution>)
      requires precision > 0 && Unique(ds) && forall k | k in amounts :: amounts[k] >= 0
      requires forall i | 0 <= i < |ds| :: ds[i].identifier in amounts
      ensures |legs| == |ds| && Attributed(ds, after, supplies.newId, |ds|)
      ensures forall i | 0 <= i < |ds| :: IsLeg(legs[i], bySource, ds, amounts, supplies, i)
    {
      hide Amounts.AmountText, Amounts.ToFloat, Amounts.Coefficient, Amounts.Places, HashText, Digits;
      legs, after := [], ds;
      for i := 0 to |ds|
        invariant |legs| == i && Attributed(ds, after, supplies.newId, i)
        invariant forall j | 0 <= j < i :: IsLeg(legs[j], bySource, ds, amounts, supplies, j)
      {
        var id := ds[i].identifier;
        if id !in amounts {
          continue;
        }
        var float := Amounts.ToFloat(Amounts.Coefficient(amounts[id], precision), Amounts.Places(precision));
        var hash := supplies.digest(HashText(float, reference, currency, source, destination));
        var leg := Leg(supplies.newId(i), amounts[id], Amounts.AmountText(amounts[id], precision), float, hash,
                       source, destination, transactionId, reference + "-" + Digits(i + 1));
        legs := legs + [if bySource then leg.(source := id) else leg.(destination := id)];
        after := Attribute(after, id, supplies.newId(i));
      }
    }

    method SplitTransactionPrecise(supplies: Supplies) returns (r: Result<seq<Leg>, SplitError>)
      modifies this`sources, this`destinations
      ensures var ds := if old(sources) != [] then old(sources) else old(destinations); r.Ok? <==> CanSplit(ds)
      ensures r.Err? ==> sources == old(sources) && destinations == old(destinations)
      ensures r.Ok? ==>
        var ds := if old(sources) != [] then old(sources) else old(destinations);
        var amounts := Allocate(preciseAmount.value, PartsOf(ds, precision));
        && |r.value| == |ds| && LegTotal(r.value) == preciseAmount.value
        && (forall i | 0 <= i < |ds| ::
              ds[i].identifier in amounts && amounts[ds[i].identifier] >= 0 &&
              IsLeg(r.value[i], old(sources) != [], ds, amounts, supplies, i))
        && Attributed(ds, if old(sources) != [] then sources else destinations, supplies.newId, |ds|)
        && (if old(sources) != [] then destinations == old(destinations) else sources == old(sources))
    {
      hide PartsOf, Payable, Allocate, WellFormed, Attributed, LegTotal, Unique, Sums.Total;
      var bySource := sources != [];
      var ds := if bySource then sources else destinations;
      if precision <= 0 || precision >= MAX_PRECISION {
        return Err(BadPrecision);
      }
      var amounts := CalculateDistributionsPrecise(preciseAmount, ds, precision);
      if amounts.Err? {
        return Err(amounts.error);
      }
      SplitCovers(preciseAmount.value, ds, precision);
      var legs, after := EmitLegs(bySource, ds, amounts.value, supplies);
      if bySource {
        sources := after;
      } else {
        destinations := after;
      }
      LegsAddUp(legs, ds, amounts.value);
      r := Ok(legs);
    }
  }

  lemma SplitCovers(total: nat, ds: seq<Distribution>, precision: int)
    requires Splittable(Some(total), ds, precision)
    ensures Unique(ds)
    ensures
      var a := Allocate(total, PartsOf(ds, precision));
      Sums.Total(a) == total && a.Keys == Ids(ds) && (forall k | k in a :: a[k] >= 0) && forall i | 0 <= i < |ds| :: ds[i].identifier in a
  {
    hide Payable, Allocate, Sums.Total, PartsOf, Ids;
    SplitConserves(total, PartsOf(ds, precision));
    KeysOfParts(ds, precision);
    forall i | 0 <= i < |ds| ensures ds[i].identifier in Ids(ds) {
      IdAt(ds, i);
    }
  }
}
